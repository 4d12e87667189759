/** The parts of std::string the shell relies on, and the specification of its
    tokenizer: the list of delimiter-free fields of a line. */
module Text {

  datatype Option<T> = None | Some(value: T)

  /** True when no character of `t` is one of `chars`. */
  predicate Avoids(t: string, chars: string)
  {
    forall k :: 0 <= k < |t| ==> t[k] !in chars
  }

  /** std::string::find_first_of(chars, from): the first position at or after
      `from` that holds one of `chars`, or None for npos. */
  function FindFirstOf(s: string, chars: string, from: nat): (r: Option<nat>)
    decreases |s| - from
    ensures r.Some? ==> from <= r.value < |s| && s[r.value] in chars
    ensures r.Some? ==> forall k :: from <= k < r.value ==> s[k] !in chars
    ensures r.None? ==> forall k :: from <= k < |s| ==> s[k] !in chars
  {
    if from >= |s| then None
    else if s[from] in chars then Some(from)
    else FindFirstOf(s, chars, from + 1)
  }

  /** Moves a search result found in `s` from position `from` to the
      coordinates of the suffix `s[from..]`. */
  function Shift(r: Option<nat>, from: nat): Option<nat>
  {
    match r
    case None => None
    case Some(e) => if e >= from then Some(e - from) else None
  }

  /** Searching the suffix `s[from..]` is searching `s` from `from`. */
  lemma {:induction false} FindInSuffix(s: string, chars: string, from: nat, k: nat)
    requires from <= |s|
    decreases |s| - from - k
    ensures FindFirstOf(s[from..], chars, k) == Shift(FindFirstOf(s, chars, from + k), from)
  {
    if from + k < |s| {
      assert s[from..][k] == s[from + k];
      if s[from + k] !in chars {
        FindInSuffix(s, chars, from, k + 1);
      }
    }
  }

  /** The fields of `s`: every maximal run of characters outside `delims`, in
      order. Consecutive, leading and trailing delimiters give no empty field. */
  function Fields(s: string, delims: string): seq<string>
    decreases |s|
  {
    match FindFirstOf(s, delims, 0)
    case None => if s == [] then [] else [s]
    case Some(e) => (if e == 0 then [] else [s[..e]]) + Fields(s[e + 1..], delims)
  }

  lemma FieldsUnfold(t: string, delims: string, e: nat)
    requires FindFirstOf(t, delims, 0) == Some(e)
    ensures Fields(t, delims) == (if e == 0 then [] else [t[..e]]) + Fields(t[e + 1..], delims)
  {
  }

  /** Every field is non-empty and holds no delimiter. */
  lemma {:induction false} FieldsAreWords(s: string, delims: string)
    decreases |s|
    ensures forall i :: 0 <= i < |Fields(s, delims)| ==>
      Fields(s, delims)[i] != [] && Avoids(Fields(s, delims)[i], delims)
  {
    match FindFirstOf(s, delims, 0)
    case None =>
    case Some(e) =>
      FieldsUnfold(s, delims, e);
      assert Avoids(s[..e], delims) by {
        forall k | 0 <= k < e ensures s[..e][k] !in delims {
          assert s[..e][k] == s[k];
        }
      }
      FieldsAreWords(s[e + 1..], delims);
  }

  lemma SuffixSlices(s: string, start: nat, e: nat)
    requires start + e < |s|
    ensures s[start..][..e] == s[start..start + e]
    ensures s[start..][e + 1..] == s[start + e + 1..]
  {
  }

  /** The fields from `start` on: the next delimiter, at `end`, closes the
      field `s[start..end]` (dropped when empty), and the rest follow it. */
  lemma FieldsFrom(s: string, delims: string, start: nat, end: nat)
    requires start <= |s| && FindFirstOf(s, delims, start) == Some(end)
    ensures Fields(s[start..], delims)
         == (if end == start then [] else [s[start..end]]) + Fields(s[end + 1..], delims)
  {
    var t := s[start..];
    var e := end - start;
    FindInSuffix(s, delims, start, 0);
    FieldsUnfold(t, delims, e);
    SuffixSlices(s, start, e);
  }

  lemma AppendAssociates<T>(a: seq<T>, b: seq<T>, c: seq<T>)
    ensures a + (b + c) == (a + b) + c
  {
  }

  /** One step of a left-to-right scan that has collected `done` from the
      fields before `start`. */
  lemma FieldsScanStep(s: string, delims: string, done: seq<string>, start: nat, end: nat)
    requires start <= |s| && FindFirstOf(s, delims, start) == Some(end)
    requires done + Fields(s[start..], delims) == Fields(s, delims)
    ensures end == start ==> done + Fields(s[end + 1..], delims) == Fields(s, delims)
    ensures end != start ==> (done + [s[start..end]]) + Fields(s[end + 1..], delims)
                             == Fields(s, delims)
  {
    var field := if end == start then [] else [s[start..end]];
    var rest := Fields(s[end + 1..], delims);
    FieldsFrom(s, delims, start, end);
    AppendAssociates(done, field, rest);
    assert done + field == (if end == start then done else done + [s[start..end]]);
  }

  /** The last step of the scan: with no delimiter left, what remains is one
      more field unless it is empty. */
  lemma FieldsScanLast(s: string, delims: string, done: seq<string>, start: nat)
    requires start <= |s| && FindFirstOf(s, delims, start) == None
    requires done + Fields(s[start..], delims) == Fields(s, delims)
    ensures start == |s| ==> done == Fields(s, delims)
    ensures start != |s| ==> done + [s[start..]] == Fields(s, delims)
  {
    FindInSuffix(s, delims, start, 0);
  }

  /** The characters of `s` that are not in `delims`, in order. */
  function Without(s: string, delims: string): string
  {
    if s == [] then [] else (if s[0] in delims then [] else [s[0]]) + Without(s[1..], delims)
  }

  /** All the strings of `ws` one after the other. */
  function Concat(ws: seq<string>): string
  {
    if ws == [] then [] else ws[0] + Concat(ws[1..])
  }

  /** The strings of `ws` with one `sep` between neighbours. */
  function Join(ws: seq<string>, sep: char): string
  {
    if ws == [] then []
    else if |ws| == 1 then ws[0]
    else ws[0] + [sep] + Join(ws[1..], sep)
  }

  /** The strings of `ws`, each followed by one `sep`. */
  function Terminated(ws: seq<string>, sep: char): string
  {
    if ws == [] then [] else ws[0] + [sep] + Terminated(ws[1..], sep)
  }

  lemma {:induction false} TerminatedSnoc(ws: seq<string>, w: string, sep: char)
    ensures Terminated(ws + [w], sep) == Terminated(ws, sep) + w + [sep]
  {
    if ws == [] {
      assert ws + [w] == [w];
    } else {
      assert (ws + [w])[1..] == ws[1..] + [w];
      TerminatedSnoc(ws[1..], w, sep);
    }
  }

  lemma {:induction false} ConcatAppend(a: seq<string>, b: seq<string>)
    ensures Concat(a + b) == Concat(a) + Concat(b)
  {
    if a == [] {
      assert a + b == b;
    } else {
      assert (a + b)[1..] == a[1..] + b;
      ConcatAppend(a[1..], b);
    }
  }

  lemma {:induction false} WithoutAppend(x: string, y: string, delims: string)
    ensures Without(x + y, delims) == Without(x, delims) + Without(y, delims)
  {
    if x == [] {
      assert x + y == y;
    } else {
      assert (x + y)[1..] == x[1..] + y;
      WithoutAppend(x[1..], y, delims);
    }
  }

  lemma {:induction false} WithoutAvoiding(t: string, delims: string)
    requires Avoids(t, delims)
    ensures Without(t, delims) == t
  {
    if t != [] {
      assert Avoids(t[1..], delims) by {
        forall k | 0 <= k < |t[1..]| ensures t[1..][k] !in delims {
          assert t[1..][k] == t[k + 1];
        }
      }
      WithoutAvoiding(t[1..], delims);
    }
  }

  /** Putting the fields back together gives the input with every delimiter
      character removed: the tokenizer loses delimiters and nothing else. */
  lemma {:induction false} FieldsKeepEverythingButDelimiters(s: string, delims: string)
    decreases |s|
    ensures Concat(Fields(s, delims)) == Without(s, delims)
  {
    match FindFirstOf(s, delims, 0)
    case None =>
      if s != [] {
        WithoutAvoiding(s, delims);
        assert Concat([s]) == s + Concat([]);
      }
    case Some(e) =>
      var head := if e == 0 then [] else [s[..e]];
      var rest := Fields(s[e + 1..], delims);
      FieldsKeepEverythingButDelimiters(s[e + 1..], delims);
      ConcatAppend(head, rest);
      assert Concat(head) == s[..e] by {
        if e != 0 { assert Concat(head) == s[..e] + Concat([]); }
      }
      assert s == s[..e] + [s[e]] + s[e + 1..];
      WithoutAppend(s[..e] + [s[e]], s[e + 1..], delims);
      WithoutAppend(s[..e], [s[e]], delims);
      WithoutAvoiding(s[..e], delims);
      assert Without([s[e]], delims) == [];
  }

  /** The field list is empty exactly when every character is a delimiter
      (which includes the empty string). */
  lemma {:induction false} NoFieldsIffAllDelimiters(s: string, delims: string)
    decreases |s|
    ensures Fields(s, delims) == [] <==> forall k :: 0 <= k < |s| ==> s[k] in delims
  {
    match FindFirstOf(s, delims, 0)
    case None =>
    case Some(e) =>
      var rest := s[e + 1..];
      NoFieldsIffAllDelimiters(rest, delims);
      if forall k :: 0 <= k < |s| ==> s[k] in delims {
        assert e == 0;
        assert forall k :: 0 <= k < |rest| ==> rest[k] == s[k + 1];
      }
      if Fields(s, delims) == [] {
        assert e == 0;
        forall k | 0 <= k < |s| ensures s[k] in delims {
          if k > 0 { assert s[k] == rest[k - 1]; }
        }
      }
  }

  /** A word followed by a separator it does not contain: the first separator
      is the one right after the word. */
  lemma FirstSeparatorAfterWord(w: string, sep: char, rest: string)
    requires sep !in w
    ensures FindFirstOf(w + [sep] + rest, [sep], 0) == Some(|w|)
  {
    var s := w + [sep] + rest;
    assert s[|w|] == sep;
    assert forall k :: 0 <= k < |w| ==> s[k] == w[k] && w[k] != sep;
  }

  lemma NoSeparatorInWord(w: string, sep: char)
    requires sep !in w
    ensures FindFirstOf(w, [sep], 0) == None
  {
    assert forall k :: 0 <= k < |w| ==> w[k] != sep;
  }

  /** Splitting words that each end in a separator they do not contain gives
      the words back. */
  lemma {:induction false} FieldsOfTerminated(ws: seq<string>, sep: char)
    requires forall i :: 0 <= i < |ws| ==> ws[i] != [] && sep !in ws[i]
    ensures Fields(Terminated(ws, sep), [sep]) == ws
  {
    if ws != [] {
      var rest := Terminated(ws[1..], sep);
      var s := ws[0] + [sep] + rest;
      FirstSeparatorAfterWord(ws[0], sep, rest);
      assert s[..|ws[0]|] == ws[0];
      assert s[|ws[0]| + 1..] == rest;
      FieldsOfTerminated(ws[1..], sep);
    }
  }

  /** Round trip of the tokenizer: joining non-empty, separator-free words
      with single separators and splitting the result gives the words back. */
  lemma {:induction false} FieldsOfJoin(ws: seq<string>, sep: char)
    requires forall i :: 0 <= i < |ws| ==> ws[i] != [] && sep !in ws[i]
    ensures Fields(Join(ws, sep), [sep]) == ws
  {
    if |ws| == 1 {
      NoSeparatorInWord(ws[0], sep);
    } else if |ws| > 1 {
      var rest := Join(ws[1..], sep);
      var s := ws[0] + [sep] + rest;
      FirstSeparatorAfterWord(ws[0], sep, rest);
      assert s[..|ws[0]|] == ws[0];
      assert s[|ws[0]| + 1..] == rest;
      FieldsOfJoin(ws[1..], sep);
    }
  }

  /** True when every character of `t` is one of `chars`. */
  predicate AllIn(t: string, chars: string)
  {
    forall k :: 0 <= k < |t| ==> t[k] in chars
  }

  /** The words of `ws`, each followed by the run of characters `gaps[i]`. */
  function Spaced(ws: seq<string>, gaps: seq<string>): string
    requires |gaps| == |ws|
  {
    if ws == [] then [] else ws[0] + gaps[0] + Spaced(ws[1..], gaps[1..])
  }

  /** Gaps fit to separate words: made of delimiters only, and non-empty
      between two words (only the gap after the last word may be empty). */
  predicate Separating(gaps: seq<string>, delims: string)
  {
    forall i :: 0 <= i < |gaps| ==> AllIn(gaps[i], delims) && (i + 1 < |gaps| ==> gaps[i] != [])
  }

  /** Words that are non-empty and free of delimiters. */
  predicate Words(ws: seq<string>, delims: string)
  {
    forall i :: 0 <= i < |ws| ==> ws[i] != [] && Avoids(ws[i], delims)
  }

  /** A run of delimiters in front of `s` yields no field. */
  lemma {:induction false} FieldsSkipDelimiters(run: string, s: string, delims: string)
    requires AllIn(run, delims)
    decreases |run|
    ensures Fields(run + s, delims) == Fields(s, delims)
  {
    if run == [] {
      assert run + s == s;
    } else {
      var t := run + s;
      assert t[0] == run[0];
      FieldsUnfold(t, delims, 0);
      assert t[1..] == run[1..] + s;
      FieldsSkipDelimiters(run[1..], s, delims);
    }
  }

  /** A word closed by a non-empty run of delimiters is one whole field. */
  lemma WordThenGap(w: string, gap: string, rest: string, delims: string)
    requires w != [] && Avoids(w, delims)
    requires gap != [] && AllIn(gap, delims)
    ensures Fields(w + gap + rest, delims) == [w] + Fields(rest, delims)
  {
    var t := w + gap + rest;
    assert t[|w|] == gap[0];
    assert forall k :: 0 <= k < |w| ==> t[k] == w[k];
    assert FindFirstOf(t, delims, 0) == Some(|w|);
    FieldsUnfold(t, delims, |w|);
    assert t[..|w|] == w;
    assert t[|w| + 1..] == gap[1..] + rest;
    FieldsSkipDelimiters(gap[1..], rest, delims);
  }

  /** A delimiter-free word with nothing after it is one whole field. */
  lemma LastWord(w: string, delims: string)
    requires w != [] && Avoids(w, delims)
    ensures Fields(w, delims) == [w]
  {
    assert FindFirstOf(w, delims, 0) == None;
  }

  lemma {:induction false} FieldsOfSpaced(ws: seq<string>, gaps: seq<string>, delims: string)
    requires |gaps| == |ws| && Words(ws, delims) && Separating(gaps, delims)
    ensures Fields(Spaced(ws, gaps), delims) == ws
  {
    if ws == [] {
      assert FindFirstOf([], delims, 0) == None;
    } else {
      var rest := Spaced(ws[1..], gaps[1..]);
      if gaps[0] == [] {
        assert |ws| == 1 && rest == [];
        assert Spaced(ws, gaps) == ws[0];
        LastWord(ws[0], delims);
      } else {
        WordThenGap(ws[0], gaps[0], rest, delims);
        assert Separating(gaps[1..], delims) by {
          forall i | 0 <= i < |gaps[1..]|
            ensures AllIn(gaps[1..][i], delims) && (i + 1 < |gaps[1..]| ==> gaps[1..][i] != [])
          {
            assert gaps[1..][i] == gaps[i + 1];
          }
        }
        assert Words(ws[1..], delims) by {
          forall i | 0 <= i < |ws[1..]| ensures ws[1..][i] != [] && Avoids(ws[1..][i], delims) {
            assert ws[1..][i] == ws[i + 1];
          }
        }
        FieldsOfSpaced(ws[1..], gaps[1..], delims);
        assert [ws[0]] + ws[1..] == ws;
      }
    }
  }

  /** The fields are exactly the maximal runs of non-delimiters: a line made
      of words separated by runs of delimiters of any length, with optional
      runs before the first word and after the last, splits into those words. */
  lemma SpacedRoundTrip(lead: string, ws: seq<string>, gaps: seq<string>, delims: string)
    requires AllIn(lead, delims)
    requires |gaps| == |ws| && Words(ws, delims) && Separating(gaps, delims)
    ensures Fields(lead + Spaced(ws, gaps), delims) == ws
  {
    FieldsSkipDelimiters(lead, Spaced(ws, gaps), delims);
    FieldsOfSpaced(ws, gaps, delims);
  }

  predicate IsDigits(s: string)
  {
    forall k :: 0 <= k < |s| ==> '0' <= s[k] <= '9'
  }

  function Digit(d: nat): (c: char)
    requires d < 10
    ensures '0' <= c <= '9' && c as int - '0' as int == d
  {
    ('0' as int + d) as char
  }

  /** What `std::cout << n` writes for a non-negative int: its decimal digits,
      with no leading zero. */
  function Decimal(n: nat): (r: string)
    ensures |r| > 0 && IsDigits(r)
    ensures r[0] == '0' ==> n == 0
  {
    if n < 10 then [Digit(n)] else Decimal(n / 10) + [Digit(n % 10)]
  }

  /** The number a string of decimal digits denotes. */
  function DigitsValue(s: string): nat
    requires IsDigits(s)
  {
    if s == [] then 0 else DigitsValue(s[..|s| - 1]) * 10 + (s[|s| - 1] as int - '0' as int)
  }

  /** Reading the printed digits back gives the number printed. */
  lemma {:induction false} DecimalDenotes(n: nat)
    ensures DigitsValue(Decimal(n)) == n
  {
    if n >= 10 {
      var d := Decimal(n / 10);
      assert (d + [Digit(n % 10)])[..|d|] == d;
      DecimalDenotes(n / 10);
    }
  }
}
