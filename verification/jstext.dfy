/** The JavaScript string built-ins the pipeline relies on: `trim()`, the
    regular-expression class `\s`, `replace(/\r\n/g, "\n")`,
    `replace(/\s+/g, " ")`, `slice(0, n)`, `Array.prototype.join` and the
    decimal rendering of integers inside template literals. */
module JsText {
  import opened Outcomes

  /** WhiteSpace and LineTerminator code points of ECMAScript; `trim()` and `\s`
      both use exactly this set. */
  predicate IsSpace(c: char) {
    || c == '\t' || c == '\n' || c == '\U{B}' || c == '\U{C}' || c == '\r'
    || c == ' ' || c == '\U{A0}' || c == '\U{1680}'
    || ('\U{2000}' <= c <= '\U{200A}')
    || c == '\U{2028}' || c == '\U{2029}' || c == '\U{202F}' || c == '\U{205F}'
    || c == '\U{3000}' || c == '\U{FEFF}'
  }

  predicate AllSpace(s: string) {
    forall k :: 0 <= k < |s| ==> IsSpace(s[k])
  }

  /** Neither end of `s` is whitespace: what `trim()` leaves. */
  predicate IsTrimmed(s: string) {
    s == [] || (!IsSpace(s[0]) && !IsSpace(s[|s| - 1]))
  }

  /** `r` is the slice of `s` that starts at `i`. */
  predicate SliceAt(s: string, i: int, r: string) {
    0 <= i <= |s| - |r| && r == s[i..i + |r|]
  }

  /** The characters of `s` that are not whitespace, in order. */
  function Visible(s: string): string {
    if s == [] then []
    else (if IsSpace(s[0]) then [] else [s[0]]) + Visible(s[1..])
  }

  /** Every character of `s` in `[lo, hi)` is whitespace. */
  predicate SpacesBetween(s: string, lo: int, hi: int)
    requires 0 <= lo && hi <= |s|
  {
    forall k :: lo <= k < hi ==> IsSpace(s[k])
  }

  /** The first position in `[i, hi)` that does not hold whitespace, or `hi`
      if there is none. */
  function SkipSpaces(s: string, i: nat, hi: nat): (r: nat)
    requires i <= hi <= |s|
    ensures i <= r <= hi
    decreases hi - i
  {
    if i < hi && IsSpace(s[i]) then SkipSpaces(s, i + 1, hi) else i
  }

  /** `s.slice(lo, hi).trim()`, computed on positions of `s` (see
      `TrimRangeIsTrimOfSlice`): the range shrinks from the front, then from
      the back, while its end character is whitespace. */
  function TrimRange(s: string, lo: nat, hi: nat): string
    requires lo <= hi <= |s|
    decreases hi - lo
  {
    if lo < hi && IsSpace(s[lo]) then TrimRange(s, lo + 1, hi)
    else if lo < hi && IsSpace(s[hi - 1]) then TrimRange(s, lo, hi - 1)
    else s[lo..hi]
  }

  /** `s.trimStart()`. */
  function TrimStart(s: string): string
  {
    s[SkipSpaces(s, 0, |s|)..]
  }

  /** `s.trim()`. */
  function Trim(s: string): string
  {
    TrimRange(s, 0, |s|)
  }

  lemma {:induction false} SkipSpacesFacts(s: string, i: nat, hi: nat)
    requires i <= hi <= |s|
    ensures var r := SkipSpaces(s, i, hi);
      && i <= r <= hi && (r < hi ==> !IsSpace(s[r])) && SpacesBetween(s, i, r)
    decreases hi - i
  {
    if i < hi && IsSpace(s[i]) { SkipSpacesFacts(s, i + 1, hi); }
  }

  /** `trimStart()` drops exactly the leading whitespace: what is left is a
      suffix of `s` that does not start with whitespace. */
  lemma TrimStartFacts(s: string)
    ensures var r := TrimStart(s);
      && |r| <= |s| && r == s[|s| - |r|..]
      && (r == [] || !IsSpace(r[0]))
      && AllSpace(s[..|s| - |r|])
  {
    SkipSpacesFacts(s, 0, |s|);
  }

  /** Trimming a range leaves the slice of it between its first and last
      non-whitespace characters: the result is trimmed, lies inside the range,
      and is empty exactly when the range is all whitespace. */
  lemma {:induction false} TrimRangeFacts(s: string, lo: nat, hi: nat)
    requires lo <= hi <= |s|
    ensures var r := TrimRange(s, lo, hi);
      && IsTrimmed(r) && |r| <= hi - lo
      && (exists i :: lo <= i && i + |r| <= hi && SliceAt(s, i, r) && SpacesBetween(s, lo, i) && SpacesBetween(s, i + |r|, hi))
      && (r == [] <==> SpacesBetween(s, lo, hi))
    decreases hi - lo
  {
    var r := TrimRange(s, lo, hi);
    var i := TrimRangeAt(s, lo, hi);
    assert SliceAt(s, i, r);
    if lo < hi && IsSpace(s[lo]) {
      TrimRangeFacts(s, lo + 1, hi);
    } else if lo < hi && IsSpace(s[hi - 1]) {
      TrimRangeFacts(s, lo, hi - 1);
    } else if lo < hi {
      assert r[0] == s[lo] && r[|r| - 1] == s[hi - 1];
    }
  }

  /** Where the trimmed range starts: only whitespace lies between it and
      either end of the range. */
  lemma {:induction false} TrimRangeAt(s: string, lo: nat, hi: nat) returns (i: nat)
    requires lo <= hi <= |s|
    ensures var r := TrimRange(s, lo, hi);
      lo <= i && i + |r| <= hi && r == s[i..i + |r|] && SpacesBetween(s, lo, i) && SpacesBetween(s, i + |r|, hi)
    decreases hi - lo
  {
    if lo < hi && IsSpace(s[lo]) {
      i := TrimRangeAt(s, lo + 1, hi);
    } else if lo < hi && IsSpace(s[hi - 1]) {
      i := TrimRangeAt(s, lo, hi - 1);
    } else {
      i := lo;
    }
  }

  /** `trim()` returns the slice of `s` left once leading and trailing
      whitespace are dropped: it is trimmed, what lies before and after it
      in `s` is all whitespace, and it is empty exactly when `s` is all
      whitespace. */
  lemma TrimFacts(s: string)
    ensures var r := Trim(s);
      && IsTrimmed(r) && |r| <= |s|
      && (exists i :: SliceAt(s, i, r) && AllSpace(s[..i]) && AllSpace(s[i + |r|..]))
      && (r == [] <==> AllSpace(s))
  {
    var r := Trim(s);
    TrimRangeFacts(s, 0, |s|);
    var i := TrimRangeAt(s, 0, |s|);
    assert AllSpace(s[..i]) by {
      forall k | 0 <= k < i ensures IsSpace(s[..i][k]) { assert s[..i][k] == s[k]; }
    }
    var after := s[i + |r|..];
    assert AllSpace(after) by {
      forall k | 0 <= k < |after| ensures IsSpace(after[k]) { assert after[k] == s[i + |r| + k]; }
    }
  }

  /** Trimming a range of `s` is trimming the same range of a slice that
      contains it. */
  lemma {:induction false} TrimRangeShift(s: string, lo: nat, a: nat, b: nat, hi: nat)
    requires lo <= a <= b <= hi <= |s|
    ensures TrimRange(s, a, b) == TrimRange(s[lo..hi], a - lo, b - lo)
    decreases b - a
  {
    var t := s[lo..hi];
    if a < b {
      assert t[a - lo] == s[a] && t[b - 1 - lo] == s[b - 1];
    }
    if a < b && IsSpace(s[a]) {
      TrimRangeShift(s, lo, a + 1, b, hi);
    } else if a < b && IsSpace(s[b - 1]) {
      TrimRangeShift(s, lo, a, b - 1, hi);
    } else {
      forall k | 0 <= k < b - a
        ensures t[a - lo..b - lo][k] == s[a..b][k]
      {
        assert t[a - lo..b - lo][k] == t[a - lo + k] == s[a + k];
      }
      assert t[a - lo..b - lo] == s[a..b];
    }
  }

  /** `TrimRange(s, lo, hi)` is `s.slice(lo, hi).trim()`. */
  lemma TrimRangeIsTrimOfSlice(s: string, lo: nat, hi: nat)
    requires lo <= hi <= |s|
    ensures TrimRange(s, lo, hi) == Trim(s[lo..hi])
  {
    TrimRangeShift(s, lo, lo, hi, hi);
  }

  lemma TrimOfTrimmed(s: string)
    requires IsTrimmed(s)
    ensures Trim(s) == s
  {
    assert s[0..|s|] == s;
  }

  /** `s.replace(/\r\n/g, "\n")`: every CR LF pair, scanned left to right
      without overlap, becomes a single LF. */
  function ReplaceCrlf(s: string): (r: string)
    ensures |r| <= |s|
    ensures (forall k :: 0 <= k < |s| - 1 ==> !(s[k] == '\r' && s[k + 1] == '\n')) ==> r == s
    ensures Visible(r) == Visible(s)
  {
    if |s| >= 2 && s[0] == '\r' && s[1] == '\n' then
      assert Visible(s) == Visible(s[1..]);
      "\n" + ReplaceCrlf(s[2..])
    else if s == [] then []
    else
      assert (forall k :: 0 <= k < |s| - 1 ==> !(s[k] == '\r' && s[k + 1] == '\n')) ==>
        (forall k :: 0 <= k < |s[1..]| - 1 ==> !(s[1..][k] == '\r' && s[1..][k + 1] == '\n'));
      [s[0]] + ReplaceCrlf(s[1..])
  }

  /** Rewriting a concatenation rewrites each side on its own, unless a CR
      ending `a` and an LF starting `c` form a pair across the seam. */
  lemma {:induction false} ReplaceCrlfAppend(a: string, c: string)
    requires a == [] || c == [] || a[|a| - 1] != '\r' || c[0] != '\n'
    ensures ReplaceCrlf(a + c) == ReplaceCrlf(a) + ReplaceCrlf(c)
    decreases |a|
  {
    var x := a + c;
    if a == [] {
      assert x == c;
    } else if |a| >= 2 && a[0] == '\r' && a[1] == '\n' {
      var rest := a[2..];
      assert x[0] == '\r' && x[1] == '\n';
      assert x[2..] == rest + c;
      assert ReplaceCrlf(x) == "\n" + ReplaceCrlf(rest + c);
      assert ReplaceCrlf(a) == "\n" + ReplaceCrlf(rest);
      ReplaceCrlfAppend(rest, c);
      AppendAssoc("\n", ReplaceCrlf(rest), ReplaceCrlf(c));
    } else {
      var rest := a[1..];
      assert x[0] == a[0];
      assert |x| >= 2 ==> x[1] == (if |a| >= 2 then a[1] else c[0]);
      assert x[1..] == rest + c;
      assert ReplaceCrlf(x) == [a[0]] + ReplaceCrlf(rest + c);
      assert ReplaceCrlf(a) == [a[0]] + ReplaceCrlf(rest);
      ReplaceCrlfAppend(rest, c);
      AppendAssoc([a[0]], ReplaceCrlf(rest), ReplaceCrlf(c));
    }
  }

  /** Each CR LF pair becomes one LF, wherever it occurs: the pair cannot
      overlap another pair, so what precedes and follows it is rewritten
      independently. */
  lemma ReplaceCrlfAtPair(a: string, b: string)
    ensures ReplaceCrlf(a + "\r\n" + b) == ReplaceCrlf(a) + "\n" + ReplaceCrlf(b)
  {
    var pair := "\r\n" + b;
    assert a + "\r\n" + b == a + pair;
    ReplaceCrlfAppend(a, pair);
    assert pair[2..] == b;
  }

  /** `s.replace(/\s+/g, " ")`: every maximal run of whitespace becomes one
      space (see `CollapseWhitespaceFacts`). */
  function CollapseWhitespace(s: string): (r: string)
    ensures |r| <= |s|
    decreases |s|
  {
    if s == [] then []
    else if IsSpace(s[0]) then
      TrimStartFacts(s);
      [' '] + CollapseWhitespace(TrimStart(s))
    else
      [s[0]] + CollapseWhitespace(s[1..])
  }

  /** Whitespace is left only as single spaces, never two in a row, the
      visible characters are kept in order, and the result starts and ends
      with whitespace exactly when the input does. */
  lemma CollapseWhitespaceFacts(s: string)
    ensures var r := CollapseWhitespace(s);
      && (s != [] ==> r != [] && (IsSpace(r[0]) <==> IsSpace(s[0])))
      && (forall k :: 0 <= k < |r| && IsSpace(r[k]) ==> r[k] == ' ')
      && (forall k :: 0 <= k < |r| - 1 ==> !(IsSpace(r[k]) && IsSpace(r[k + 1])))
      && Visible(r) == Visible(s)
      && (s != [] ==> (IsSpace(r[|r| - 1]) <==> IsSpace(s[|s| - 1])))
  {
    CollapseSpaces(s);
    CollapseKeepsVisible(s);
    CollapseEnd(s);
  }

  /** The result ends with whitespace exactly when the input does. */
  lemma {:induction false} CollapseEnd(s: string)
    ensures var r := CollapseWhitespace(s);
      s != [] ==> r != [] && (IsSpace(r[|r| - 1]) <==> IsSpace(s[|s| - 1]))
    decreases |s|
  {
    if s != [] {
      TrimStartFacts(s);
      var rest := if IsSpace(s[0]) then TrimStart(s) else s[1..];
      var head := if IsSpace(s[0]) then ' ' else s[0];
      var tail := CollapseWhitespace(rest);
      assert CollapseWhitespace(s) == [head] + tail;
      assert rest == s[|s| - |rest|..];
      if rest == [] {
        assert IsSpace(s[0]) ==> s[..|s|][|s| - 1] == s[|s| - 1];
      } else {
        CollapseEnd(rest);
        assert rest[|rest| - 1] == s[|s| - 1];
      }
    }
  }

  /** Every whitespace character replaced by a space. */
  function Blanks(s: string): (r: string)
    ensures |r| == |s|
  {
    if s == [] then [] else [if IsSpace(s[0]) then ' ' else s[0]] + Blanks(s[1..])
  }

  /** Every space that directly follows a space dropped. */
  function Dedupe(t: string): string
  {
    if |t| <= 1 then t
    else if t[0] == ' ' && t[1] == ' ' then Dedupe(t[1..])
    else [t[0]] + Dedupe(t[1..])
  }

  /** Collapsing whitespace runs is blanking every whitespace character and
      then keeping only the first space of each run of spaces. */
  lemma {:induction false} CollapseIsDedupeOfBlanks(s: string)
    ensures CollapseWhitespace(s) == Dedupe(Blanks(s))
    decreases |s|
  {
    if s != [] {
      if IsSpace(s[0]) {
        TrimStartStep(s);
        TrimStartFacts(s[1..]);
        CollapseIsDedupeOfBlanks(TrimStart(s));
        DedupeLeadingBlanks(s);
      } else {
        CollapseIsDedupeOfBlanks(s[1..]);
        assert Blanks(s) == [s[0]] + Blanks(s[1..]);
        assert Blanks(s)[1..] == Blanks(s[1..]);
      }
    }
  }

  /** A leading whitespace run blanks and dedupes to one space. */
  lemma {:induction false} DedupeLeadingBlanks(s: string)
    requires s != [] && IsSpace(s[0])
    ensures Dedupe(Blanks(s)) == [' '] + Dedupe(Blanks(TrimStart(s)))
    decreases |s|
  {
    var t := s[1..];
    var b := Blanks(s);
    assert b == [' '] + Blanks(t);
    assert b[1..] == Blanks(t);
    TrimStartStep(s);
    if t == [] {
      assert TrimStart(t) == [];
    } else if IsSpace(t[0]) {
      DedupeLeadingBlanks(t);
      TrimStartStep(t);
      assert Blanks(t)[0] == ' ';
    } else {
      assert Blanks(t)[0] == t[0] != ' ';
      assert SkipSpaces(t, 0, |t|) == 0;
      assert TrimStart(t) == t;
    }
  }

  /** Leading whitespace is skipped one character at a time. */
  lemma TrimStartStep(s: string)
    requires s != [] && IsSpace(s[0])
    ensures TrimStart(s) == TrimStart(s[1..])
  {
    SkipSpacesShift(s, 1, |s|);
    var j := SkipSpaces(s[1..], 0, |s| - 1);
    assert s[1 + j..] == s[1..][j..];
  }

  lemma {:induction false} SkipSpacesShift(s: string, i: nat, hi: nat)
    requires 1 <= i <= hi <= |s|
    ensures SkipSpaces(s, i, hi) == 1 + SkipSpaces(s[1..], i - 1, hi - 1)
    decreases hi - i
  {
    if i < hi {
      assert s[1..][i - 1] == s[i];
      if IsSpace(s[i]) {
        SkipSpacesShift(s, i + 1, hi);
      }
    }
  }

  lemma {:induction false} CollapseSpaces(s: string)
    ensures var r := CollapseWhitespace(s);
      && (s != [] ==> r != [] && (IsSpace(r[0]) <==> IsSpace(s[0])))
      && (forall k :: 0 <= k < |r| && IsSpace(r[k]) ==> r[k] == ' ')
      && (forall k :: 0 <= k < |r| - 1 ==> !(IsSpace(r[k]) && IsSpace(r[k + 1])))
    decreases |s|
  {
    if s != [] {
      var r := CollapseWhitespace(s);
      var rest := if IsSpace(s[0]) then TrimStart(s) else s[1..];
      var head := if IsSpace(s[0]) then ' ' else s[0];
      TrimStartFacts(s);
      CollapseSpaces(rest);
      var tail := CollapseWhitespace(rest);
      assert r == [head] + tail;
      assert IsSpace(s[0]) ==> tail == [] || !IsSpace(tail[0]);
      forall k | 0 <= k < |r| - 1
        ensures !(IsSpace(r[k]) && IsSpace(r[k + 1]))
      {
        assert r[k + 1] == tail[k];
        if k > 0 { assert r[k] == tail[k - 1]; }
      }
    }
  }

  lemma {:induction false} CollapseKeepsVisible(s: string)
    ensures Visible(CollapseWhitespace(s)) == Visible(s)
    decreases |s|
  {
    if s != [] {
      if IsSpace(s[0]) {
        TrimStartFacts(s);
        var rest := TrimStart(s);
        var lead := s[..|s| - |rest|];
        CollapseKeepsVisible(rest);
        VisibleCons(' ', CollapseWhitespace(rest));
        assert s == lead + rest;
        VisibleOfSpaces(lead);
        VisibleAppend(lead, rest);
      } else {
        CollapseKeepsVisible(s[1..]);
        VisibleCons(s[0], CollapseWhitespace(s[1..]));
      }
    }
  }

  lemma VisibleCons(c: char, t: string)
    ensures Visible([c] + t) == (if IsSpace(c) then [] else [c]) + Visible(t)
  {
    assert ([c] + t)[1..] == t;
  }

  lemma {:induction false} VisibleAppend(a: string, b: string)
    ensures Visible(a + b) == Visible(a) + Visible(b)
    decreases |a|
  {
    if a == [] {
      assert a + b == b;
    } else {
      assert (a + b)[1..] == a[1..] + b;
      VisibleAppend(a[1..], b);
    }
  }

  lemma {:induction false} VisibleOfSpaces(s: string)
    requires AllSpace(s)
    ensures Visible(s) == []
    decreases |s|
  {
    if s != [] { VisibleOfSpaces(s[1..]); }
  }

  /** `s.slice(0, n)` for a non-negative `n`. */
  function Prefix(s: string, n: nat): (r: string)
    ensures |r| == Min(n, |s|) && r <= s
  {
    if n <= |s| then s[..n] else s
  }

  /** `parts.join(sep)`. */
  function Join(parts: seq<string>, sep: string): string
  {
    if parts == [] then []
    else if |parts| == 1 then parts[0]
    else parts[0] + sep + Join(parts[1..], sep)
  }

  /** Where `parts[i]` starts inside `Join(parts, sep)`. */
  function JoinOffset(parts: seq<string>, sep: string, i: nat): nat
    requires i <= |parts|
  {
    if i == 0 then 0 else JoinOffset(parts, sep, i - 1) + |parts[i - 1]| + |sep|
  }

  /** The joined string holds every part, in order, each after the previous
      part and one separator. */
  lemma {:induction false} JoinHoldsParts(parts: seq<string>, sep: string, i: nat)
    requires i < |parts|
    ensures JoinOffset(parts, sep, i) + |parts[i]| + (if i + 1 < |parts| then |sep| else 0) <= |Join(parts, sep)|
    ensures Join(parts, sep)[JoinOffset(parts, sep, i)..JoinOffset(parts, sep, i) + |parts[i]|] == parts[i]
    ensures i + 1 < |parts| ==>
      Join(parts, sep)[JoinOffset(parts, sep, i) + |parts[i]|..JoinOffset(parts, sep, i + 1)] == sep
    decreases i
  {
    if i > 0 {
      var tail := parts[1..];
      var pre := parts[0] + sep;
      var rest := Join(tail, sep);
      var o := JoinOffset(tail, sep, i - 1);
      assert parts[i] == tail[i - 1];
      var off := JoinOffset(parts, sep, i);
      JoinHoldsParts(tail, sep, i - 1);
      ShiftOffset(parts, sep, i);
      assert Join(parts, sep) == pre + rest;
      SliceOfSuffix(pre, rest, o, o + |parts[i]|, off, off + |parts[i]|);
      if i + 1 < |parts| {
        ShiftOffset(parts, sep, i + 1);
        SliceOfSuffix(pre, rest, o + |parts[i]|, JoinOffset(tail, sep, i), off + |parts[i]|, JoinOffset(parts, sep, i + 1));
      }
    } else if |parts| == 1 {
      assert parts[0][0..|parts[0]|] == parts[0];
    } else {
      var after := sep + Join(parts[1..], sep);
      assert Join(parts, sep) == parts[0] + after;
      SliceOfPrefix(parts[0], after, |parts[0]|);
      SliceOfPrefix(sep, Join(parts[1..], sep), |sep|);
      SliceOfSuffix(parts[0], after, 0, |sep|, |parts[0]|, JoinOffset(parts, sep, 1));
    }
  }

  /** The joined string ends with the last part: its length is the last
      part's offset plus the last part's length, and joining nothing gives
      the empty string. */
  lemma {:induction false} JoinLength(parts: seq<string>, sep: string)
    ensures parts == [] ==> Join(parts, sep) == []
    ensures parts != [] ==> |Join(parts, sep)| == JoinOffset(parts, sep, |parts| - 1) + |parts[|parts| - 1]|
    decreases |parts|
  {
    if |parts| > 1 {
      var tail := parts[1..];
      JoinLength(tail, sep);
      ShiftOffset(parts, sep, |parts| - 1);
      assert tail[|tail| - 1] == parts[|parts| - 1];
    }
  }

  /** Slicing exactly a prefix gives the prefix. */
  lemma SliceOfPrefix(x: string, y: string, hi: nat)
    requires hi == |x|
    ensures (x + y)[0..hi] == x
  {
  }

  /** Slicing past a prefix slices what follows it. */
  lemma SliceOfSuffix(x: string, y: string, a: nat, b: nat, lo: nat, hi: nat)
    requires a <= b <= |y| && lo == |x| + a && hi == |x| + b
    ensures (x + y)[lo..hi] == y[a..b]
  {
  }

  lemma {:induction false} ShiftOffset(parts: seq<string>, sep: string, i: nat)
    requires 0 < i <= |parts|
    ensures JoinOffset(parts, sep, i) == |parts[0]| + |sep| + JoinOffset(parts[1..], sep, i - 1)
    decreases i
  {
    if i > 1 { ShiftOffset(parts, sep, i - 1); }
  }

  lemma JoinStartsWithFirst(parts: seq<string>, sep: string)
    requires parts != []
    ensures parts[0] <= Join(parts, sep)
  {
  }

  function DigitChar(d: nat): (c: char)
    requires d < 10
    ensures '0' <= c <= '9' && c as int - '0' as int == d
  {
    ('0' as int + d) as char
  }

  /** The value of a string of decimal digits, read most significant first. */
  function DecimalValue(r: string): nat
    requires forall k :: 0 <= k < |r| ==> '0' <= r[k] <= '9'
  {
    if r == [] then 0 else DecimalValue(r[..|r| - 1]) * 10 + (r[|r| - 1] as int - '0' as int)
  }

  /** The decimal numeral JavaScript prints for an integer value: its digits
      read back as `n`, with no leading zero. */
  function NatToString(n: nat): (r: string)
    ensures r != []
    ensures forall k :: 0 <= k < |r| ==> '0' <= r[k] <= '9'
    ensures DecimalValue(r) == n
    ensures r[0] == '0' ==> r == "0"
  {
    if n < 10 then [DigitChar(n)]
    else
      var r := NatToString(n / 10) + [DigitChar(n % 10)];
      assert r[..|r| - 1] == NatToString(n / 10);
      r
  }

  /** A negative value is printed as `-` and the numeral of its magnitude. */
  function IntToString(n: int): (r: string)
    ensures r != [] && !IsSpace(r[0])
    ensures n >= 0 ==> r == NatToString(n)
    ensures n < 0 ==> r[0] == '-' && r[1..] == NatToString(-n)
  {
    if n < 0 then "-" + NatToString(-n) else NatToString(n)
  }

  /** `toLowerCase` on the ASCII letters; every other character is kept. */
  function AsciiLower(c: char): (r: char)
    ensures 'A' <= c <= 'Z' ==> 'a' <= r <= 'z'
    ensures !('A' <= c <= 'Z') ==> r == c
  {
    if 'A' <= c <= 'Z' then (c as int - 'A' as int + 'a' as int) as char else c
  }

  function AsciiLowerCase(s: string): (r: string)
    ensures |r| == |s| && forall k :: 0 <= k < |s| ==> r[k] == AsciiLower(s[k])
  {
    seq(|s|, k requires 0 <= k < |s| => AsciiLower(s[k]))
  }
}
