/**
 * Configuration-file handling: `trim` on a NUL-terminated line buffer, the
 * modifier names, and what one `key = value` line does to the settings.
 * Lines are given as strings; reading them from a file is not modelled.
 */
module ConfigFile {
  import opened Wrappers

  const NUL: char := '\0'

  /** The X modifier masks the names map to. */
  const ShiftMask: nat := 1
  const ControlMask: nat := 4
  const Mod1Mask: nat := 8
  const Mod4Mask: nat := 64

  /** The gap used until a configuration line sets another one. */
  const DefaultGap: int := 10

  /** The largest gap a configuration line may set. */
  const MaxGap: int := 300

  // ---------------------------------------------------------------------
  // C strings
  // ---------------------------------------------------------------------

  /**
   * C-locale `isspace`: space, tab, newline, vertical tab, form feed and
   * carriage return. These are the space and the control characters 9 to
   * 13; no other character counts, and in particular not NUL.
   */
  predicate IsSpace(ch: char): (r: bool)
    ensures r <==> ch == ' ' || '\t' <= ch <= '\r'
    ensures r ==> ch != NUL
  {
    ch == ' ' || ch == '\t' || ch == '\n' || ch == '\U{0B}' || ch == '\U{0C}' || ch == '\r'
  }

  /** Where the C string starting at `i` ends: the first NUL at or after `i`, or the end of the buffer. */
  function StrEnd(buf: seq<char>, i: nat): (e: nat)
    requires i <= |buf|
    ensures i <= e <= |buf|
    ensures e < |buf| ==> buf[e] == NUL
    ensures forall k :: i <= k < e ==> buf[k] != NUL
    decreases |buf| - i
  {
    if i == |buf| || buf[i] == NUL then i else StrEnd(buf, i + 1)
  }

  /** The C string starting at index `i` of a buffer. */
  function CStr(buf: seq<char>, i: nat): (s: seq<char>)
    requires i <= |buf|
    ensures NUL !in s
    ensures i + |s| == StrEnd(buf, i)
  {
    buf[i..StrEnd(buf, i)]
  }

  /** Any index with the characterisation of `StrEnd` is `StrEnd`. */
  lemma StrEndUnique(buf: seq<char>, i: nat, e: nat)
    requires i <= e <= |buf|
    requires e < |buf| ==> buf[e] == NUL
    requires forall k :: i <= k < e ==> buf[k] != NUL
    ensures StrEnd(buf, i) == e
  {
  }

  /** A C string reads the same in any buffer that agrees on it and on its terminator. */
  lemma CStrFrame(a: seq<char>, b: seq<char>, i: nat)
    requires i <= |a| == |b| && StrEnd(a, i) < |a|
    requires forall k :: i <= k <= StrEnd(a, i) ==> a[k] == b[k]
    ensures StrEnd(b, i) == StrEnd(a, i) && CStr(b, i) == CStr(a, i)
  {
    StrEndUnique(b, i, StrEnd(a, i));
  }

  /** Writing a NUL at `eq` inside a C string splits it into the part before and the part after. */
  lemma CutAt(a: seq<char>, b: seq<char>, p: nat, eq: nat)
    requires p <= eq < |a| && eq < StrEnd(a, p) < |a| && b == a[eq := NUL]
    ensures StrEnd(b, p) == eq && CStr(b, p) == CStr(a, p)[..eq - p]
    ensures StrEnd(b, eq + 1) == StrEnd(a, p) && CStr(b, eq + 1) == CStr(a, p)[eq - p + 1..]
  {
    StrEndUnique(b, p, eq);
    StrEndUnique(b, eq + 1, StrEnd(a, p));
  }

  /** `strchr`: the offset of the first `c` in `x`, if there is one. */
  function Find(x: seq<char>, c: char): (r: Option<nat>)
    ensures r.None? <==> c !in x
    ensures r.Some? ==> r.value < |x| && x[r.value] == c && c !in x[..r.value]
  {
    if x == [] then None
    else if x[0] == c then Some(0)
    else
      match Find(x[1..], c)
      case None => None
      case Some(i) =>
        assert x[1..][..i] == x[1..i + 1];
        Some(i + 1)
  }

  // ---------------------------------------------------------------------
  // trim
  // ---------------------------------------------------------------------

  /** The first index at or after `i` that does not hold white space, or `|x|`. */
  function SkipSpaces(x: seq<char>, i: nat): (j: nat)
    requires i <= |x|
    ensures i <= j <= |x|
    ensures j < |x| ==> !IsSpace(x[j])
    ensures forall k :: i <= k < j ==> IsSpace(x[k])
    decreases |x| - i
  {
    if i == |x| || !IsSpace(x[i]) then i else SkipSpaces(x, i + 1)
  }

  /** Moving down from `e`, the index just past the last non-space, stopping at `lo`. */
  function BackSkip(x: seq<char>, lo: nat, e: nat): (r: nat)
    requires lo <= e <= |x|
    ensures lo <= r <= e
    ensures r > lo ==> !IsSpace(x[r - 1])
    ensures forall k :: r <= k < e ==> IsSpace(x[k])
    decreases e
  {
    if e == lo || !IsSpace(x[e - 1]) then e else BackSkip(x, lo, e - 1)
  }

  /** Where the trimmed string begins. */
  function TrimStart(x: seq<char>): nat
  {
    SkipSpaces(x, 0)
  }

  /** Where the trimmed string ends: the trailing scan never goes below the first kept character. */
  function TrimEnd(x: seq<char>): (e: nat)
    ensures TrimStart(x) <= e <= |x|
  {
    var b := TrimStart(x);
    if b == |x| then b else BackSkip(x, b + 1, |x|)
  }

  /**
   * `trim` on a string: the sub-range between the leading and the trailing
   * white space. It is empty exactly when the string is all white space,
   * and otherwise begins and ends with a character that is not.
   */
  function TrimSeq(x: seq<char>): (t: seq<char>)
    ensures |t| <= |x|
    ensures t != [] ==> !IsSpace(t[0]) && !IsSpace(t[|t| - 1])
  {
    x[TrimStart(x)..TrimEnd(x)]
  }

  /** The trimmed string is empty exactly when the string is all white space. */
  lemma TrimEmptyIff(x: seq<char>)
    ensures TrimSeq(x) == [] <==> forall k :: 0 <= k < |x| ==> IsSpace(x[k])
  {
  }

  /** Everything `trim` removes is white space, on either side of the kept sub-range. */
  lemma TrimRemovesOnlySpace(x: seq<char>)
    ensures forall k :: 0 <= k < TrimStart(x) ==> IsSpace(x[k])
    ensures forall k :: TrimEnd(x) <= k < |x| ==> IsSpace(x[k])
  {
  }

  /** Trimming twice is trimming once. */
  lemma TrimIdempotent(x: seq<char>)
    ensures TrimSeq(TrimSeq(x)) == TrimSeq(x)
  {
    var t := TrimSeq(x);
    if t != [] {
      assert SkipSpaces(t, 0) == 0;
      assert BackSkip(t, 1, |t|) == |t|;
    }
  }

  /** Any index with the characterisation of `SkipSpaces` is `SkipSpaces`. */
  lemma SkipSpacesUnique(x: seq<char>, j: nat)
    requires j <= |x| && (j < |x| ==> !IsSpace(x[j]))
    requires forall k :: 0 <= k < j ==> IsSpace(x[k])
    ensures SkipSpaces(x, 0) == j
  {
  }

  /** Any index with the characterisation of `BackSkip` is `BackSkip`. */
  lemma BackSkipUnique(x: seq<char>, lo: nat, r: nat)
    requires lo <= r <= |x| && (r > lo ==> !IsSpace(x[r - 1]))
    requires forall k :: r <= k < |x| ==> IsSpace(x[k])
    ensures BackSkip(x, lo, |x|) == r
  {
  }

  /** Two buffers of one length that hold the same characters outside `lo..hi`. */
  predicate AgreeOutside(a: seq<char>, b: seq<char>, lo: nat, hi: nat)
  {
    |a| == |b| && forall k :: 0 <= k < |a| && !(lo <= k < hi) ==> a[k] == b[k]
  }

  /**
   * `trim` on the C string at `s`: skips the leading white space, then
   * overwrites the trailing white space with NULs, and returns where the
   * trimmed string starts. Nothing outside the original string is touched.
   */
  method Trim(line: array<char>, s: nat) returns (p: nat)
    requires s < line.Length && StrEnd(line[..], s) < line.Length
    modifies line
    ensures p == s + TrimStart(CStr(old(line[..]), s)) <= StrEnd(old(line[..]), s)
    ensures StrEnd(line[..], p) <= StrEnd(old(line[..]), s)
    ensures CStr(line[..], p) == TrimSeq(CStr(old(line[..]), s))
    ensures AgreeOutside(old(line[..]), line[..], s, StrEnd(old(line[..]), s))
    ensures line[s..p] == old(line[s..p])
    ensures forall k :: StrEnd(line[..], p) <= k <= StrEnd(old(line[..]), s) ==> line[k] == NUL
  {
    p := SkipLeading(line, s);
    if line[p] == NUL {
      StrEndUnique(line[..], p, p);
      return;
    }
    TrimTrailing(line, s, p);
  }

  /** The leading scan of `trim`: the first character of the C string at `s` that is not white space. */
  method SkipLeading(line: array<char>, s: nat) returns (p: nat)
    requires s < line.Length && StrEnd(line[..], s) < line.Length
    ensures s <= p <= StrEnd(line[..], s)
    ensures StrEnd(line[..], p) == StrEnd(line[..], s)
    ensures line[p] == NUL <==> p == StrEnd(line[..], s)
    ensures TrimStart(CStr(line[..], s)) == p - s
    ensures line[p] == NUL ==> TrimSeq(CStr(line[..], s)) == []
  {
    ghost var e0 := StrEnd(line[..], s);
    p := s;
    while IsSpace(line[p])
      invariant s <= p <= e0
      invariant forall k :: s <= k < p ==> IsSpace(line[k])
      decreases e0 - p
    {
      p := p + 1;
    }
    SkipAt(line[..], s, p);
  }

  /**
   * The trailing scan of `trim` on a string that does not start with white
   * space at `p`: NULs go over the trailing white space, but never over the
   * character at `p`.
   */
  method TrimTrailing(line: array<char>, s: nat, p: nat)
    requires s <= p < line.Length && p < StrEnd(line[..], s) < line.Length
    requires TrimStart(CStr(line[..], s)) == p - s && StrEnd(line[..], p) == StrEnd(line[..], s)
    modifies line
    ensures StrEnd(line[..], p) <= StrEnd(old(line[..]), s)
    ensures CStr(line[..], p) == TrimSeq(CStr(old(line[..]), s))
    ensures AgreeOutside(old(line[..]), line[..], s, StrEnd(old(line[..]), s))
    ensures line[s..p] == old(line[s..p])
    ensures forall k :: StrEnd(line[..], p) <= k <= StrEnd(old(line[..]), s) ==> line[k] == NUL
  {
    ghost var buf := line[..];
    ghost var e0 := StrEnd(buf, s);
    var end := StrEnd(line[..], p) - 1;
    while end > p && IsSpace(line[end])
      invariant p <= end < e0
      invariant AgreeOutside(buf, line[..], end + 1, e0)
      invariant forall k :: end < k < e0 ==> line[k] == NUL && IsSpace(buf[k])
    {
      line[end] := NUL;
      end := end - 1;
    }
    TrimmedAt(buf, line[..], s, p, end);
    TrimKeepsEnds(buf, line[..], s, p, end);
  }

  /** The leading scan of `Trim` stops where `TrimStart` says. */
  lemma SkipAt(buf: seq<char>, s: nat, p: nat)
    requires s <= p < |buf| && p <= StrEnd(buf, s) < |buf|
    requires !IsSpace(buf[p]) && forall k :: s <= k < p ==> IsSpace(buf[k])
    ensures TrimStart(CStr(buf, s)) == p - s
    ensures StrEnd(buf, p) == StrEnd(buf, s)
    ensures buf[p] == NUL <==> p == StrEnd(buf, s)
    ensures buf[p] == NUL ==> TrimSeq(CStr(buf, s)) == []
  {
    var x := CStr(buf, s);
    if p < StrEnd(buf, s) {
      assert x[p - s] == buf[p];
    }
    SkipSpacesUnique(x, p - s);
    StrEndUnique(buf, p, StrEnd(buf, s));
  }

  /** After the trailing scan of `Trim`, the C string at `p` is the trimmed string. */
  lemma TrimmedAt(buf: seq<char>, line: seq<char>, s: nat, p: nat, end: nat)
    requires |line| == |buf| && s <= p <= end < |buf| && end < StrEnd(buf, s) < |buf|
    requires TrimStart(CStr(buf, s)) == p - s
    requires end == p || !IsSpace(line[end])
    requires AgreeOutside(buf, line, end + 1, StrEnd(buf, s))
    requires forall k :: end < k < StrEnd(buf, s) ==> line[k] == NUL && IsSpace(buf[k])
    ensures StrEnd(line, p) == end + 1
    ensures CStr(line, p) == TrimSeq(CStr(buf, s))
  {
    TrimmedInOriginal(buf, s, p, end);
    NulsAfterTrimmed(buf, line, StrEnd(buf, s), p, end);
  }

  /** The trailing scan leaves the leading white space alone and leaves NULs from `end + 1` up to the old terminator. */
  lemma TrimKeepsEnds(buf: seq<char>, line: seq<char>, s: nat, p: nat, end: nat)
    requires |line| == |buf| && s <= p <= end < |buf| && end < StrEnd(buf, s) < |buf|
    requires AgreeOutside(buf, line, end + 1, StrEnd(buf, s))
    requires forall k :: end < k < StrEnd(buf, s) ==> line[k] == NUL
    ensures line[s..p] == buf[s..p]
    ensures forall k :: end + 1 <= k <= StrEnd(buf, s) ==> line[k] == NUL
  {
    assert line[StrEnd(buf, s)] == buf[StrEnd(buf, s)];
  }

  /** Read on the original buffer, the trimmed string runs from `p` to `end`. */
  lemma TrimmedInOriginal(buf: seq<char>, s: nat, p: nat, end: nat)
    requires s <= p <= end < |buf| && end < StrEnd(buf, s) < |buf|
    requires TrimStart(CStr(buf, s)) == p - s
    requires end == p || !IsSpace(buf[end])
    requires forall k :: end < k < StrEnd(buf, s) ==> IsSpace(buf[k])
    ensures TrimSeq(CStr(buf, s)) == buf[p..end + 1]
  {
    var e0 := StrEnd(buf, s);
    var x := CStr(buf, s);
    TailSpaces(buf, s, e0, end);
    assert end == p || !IsSpace(x[end - s]) by {
      if end > p {
        assert x[end - s] == buf[end];
      }
    }
    TrimEndAt(x, p - s, end + 1 - s);
    SubRange(buf, s, e0, p - s, end + 1 - s);
  }

  /** With NULs written over the trailing white space, the C string at `p` stops after `end`. */
  lemma NulsAfterTrimmed(buf: seq<char>, line: seq<char>, e0: nat, p: nat, end: nat)
    requires |line| == |buf| && p <= end < e0 < |buf| && buf[e0] == NUL
    requires forall k :: p <= k < e0 ==> buf[k] != NUL
    requires AgreeOutside(buf, line, end + 1, e0)
    requires forall k :: end < k < e0 ==> line[k] == NUL
    ensures StrEnd(line, p) == end + 1 && CStr(line, p) == buf[p..end + 1]
  {
    assert line[end + 1] == NUL by {
      if end + 1 == e0 {
        assert line[e0] == buf[e0];
      }
    }
    forall k | p <= k < end + 1
      ensures line[k] != NUL
    {
      assert line[k] == buf[k];
    }
    StrEndUnique(line, p, end + 1);
    assert line[p..end + 1] == buf[p..end + 1];
  }

  /** White space after `end` in the buffer is white space after `end - s` in the string at `s`. */
  lemma TailSpaces(buf: seq<char>, s: nat, e0: nat, end: nat)
    requires s <= end < e0 <= |buf|
    requires forall k :: end < k < e0 ==> IsSpace(buf[k])
    ensures forall k :: end + 1 - s <= k < e0 - s ==> IsSpace(buf[s..e0][k])
  {
    forall k | end + 1 - s <= k < e0 - s
      ensures IsSpace(buf[s..e0][k])
    {
      assert buf[s..e0][k] == buf[s + k];
    }
  }

  /** Where the trailing scan stops on a string whose leading white space ends at `b`. */
  lemma TrimEndAt(x: seq<char>, b: nat, r: nat)
    requires TrimStart(x) == b < r <= |x|
    requires r == b + 1 || !IsSpace(x[r - 1])
    requires forall k :: r <= k < |x| ==> IsSpace(x[k])
    ensures TrimSeq(x) == x[b..r]
  {
    BackSkipUnique(x, b + 1, r);
  }

  lemma SubRange(buf: seq<char>, s: nat, e: nat, i: nat, j: nat)
    requires s <= e <= |buf| && i <= j <= e - s
    ensures buf[s..e][i..j] == buf[s + i..s + j]
  {
    forall k | 0 <= k < j - i
      ensures buf[s..e][i..j][k] == buf[s + i..s + j][k]
    {
      assert buf[s..e][i..j][k] == buf[s + i + k];
    }
  }

  // ---------------------------------------------------------------------
  // Names and numbers
  // ---------------------------------------------------------------------

  /** C-locale `tolower`: `A`..`Z` become the letter at the same place in `a`..`z`; nothing else changes. */
  function Lower(ch: char): (r: char)
    ensures 'A' <= ch <= 'Z' ==> 'a' <= r <= 'z' && r as int - 'a' as int == ch as int - 'A' as int
    ensures !('A' <= ch <= 'Z') ==> r == ch
    ensures !('A' <= r <= 'Z')
  {
    if 'A' <= ch <= 'Z' then (ch as int + 32) as char else ch
  }

  /** A string with every character passed through `tolower`. */
  function LowerStr(a: string): (l: string)
    ensures |l| == |a| && forall i :: 0 <= i < |a| ==> l[i] == Lower(a[i])
  {
    seq(|a|, i requires 0 <= i < |a| => Lower(a[i]))
  }

  /** `strcasecmp(a, b) == 0`: the strings are equal once both are folded to lower case. */
  predicate EqualsIgnoreCase(a: string, b: string): (r: bool)
    ensures r <==> LowerStr(a) == LowerStr(b)
  {
    |a| == |b| && forall i :: 0 <= i < |a| ==> Lower(a[i]) == Lower(b[i])
  }

  lemma EqualsIgnoreCaseTrans(a: string, b: string, c: string)
    requires EqualsIgnoreCase(a, b)
    ensures EqualsIgnoreCase(a, c) <==> EqualsIgnoreCase(b, c)
  {
  }

  /** `parse_modifier`: the mask a modifier name stands for, case-insensitively, or nothing for an unknown name. */
  function ParseModifier(value: string): (r: Option<nat>)
    ensures r == Some(Mod4Mask) ==>
              EqualsIgnoreCase(value, "Mod4") || EqualsIgnoreCase(value, "Super") || EqualsIgnoreCase(value, "Win")
    ensures r == Some(Mod1Mask) ==> EqualsIgnoreCase(value, "Mod1") || EqualsIgnoreCase(value, "Alt")
    ensures r == Some(ControlMask) ==> EqualsIgnoreCase(value, "Control") || EqualsIgnoreCase(value, "Ctrl")
    ensures r == Some(ShiftMask) ==> EqualsIgnoreCase(value, "Shift")
    ensures r.Some? ==> r.value in {ShiftMask, ControlMask, Mod1Mask, Mod4Mask}
    ensures r.None? <==> !(EqualsIgnoreCase(value, "Mod4") || EqualsIgnoreCase(value, "Super") ||
                           EqualsIgnoreCase(value, "Win") || EqualsIgnoreCase(value, "Mod1") ||
                           EqualsIgnoreCase(value, "Alt") || EqualsIgnoreCase(value, "Control") ||
                           EqualsIgnoreCase(value, "Ctrl") || EqualsIgnoreCase(value, "Shift"))
  {
    if EqualsIgnoreCase(value, "Mod4") || EqualsIgnoreCase(value, "Super") || EqualsIgnoreCase(value, "Win") then
      Some(Mod4Mask)
    else if EqualsIgnoreCase(value, "Mod1") || EqualsIgnoreCase(value, "Alt") then
      Some(Mod1Mask)
    else if EqualsIgnoreCase(value, "Control") || EqualsIgnoreCase(value, "Ctrl") then
      Some(ControlMask)
    else if EqualsIgnoreCase(value, "Shift") then
      Some(ShiftMask)
    else
      None
  }

  /** Names that differ only in letter case parse alike. */
  lemma ParseModifierIgnoresCase(a: string, b: string)
    requires EqualsIgnoreCase(a, b)
    ensures ParseModifier(a) == ParseModifier(b)
  {
    EqualsIgnoreCaseTrans(a, b, "Mod4");
    EqualsIgnoreCaseTrans(a, b, "Super");
    EqualsIgnoreCaseTrans(a, b, "Win");
    EqualsIgnoreCaseTrans(a, b, "Mod1");
    EqualsIgnoreCaseTrans(a, b, "Alt");
    EqualsIgnoreCaseTrans(a, b, "Control");
    EqualsIgnoreCaseTrans(a, b, "Ctrl");
    EqualsIgnoreCaseTrans(a, b, "Shift");
  }

  predicate IsDigit(ch: char)
  {
    '0' <= ch <= '9'
  }

  /** The first index at or after `i` that does not hold a decimal digit, or `|x|`. */
  function DigitRun(x: seq<char>, i: nat): (j: nat)
    requires i <= |x|
    ensures i <= j <= |x|
    ensures j < |x| ==> !IsDigit(x[j])
    ensures forall k :: i <= k < j ==> IsDigit(x[k])
    decreases |x| - i
  {
    if i == |x| || !IsDigit(x[i]) then i else DigitRun(x, i + 1)
  }

  /** The value of a run of decimal digits. */
  function Decimal(ds: seq<char>): nat
    requires forall k :: 0 <= k < |ds| ==> IsDigit(ds[k])
  {
    if ds == [] then 0
    else
      assert IsDigit(ds[|ds| - 1]);
      10 * Decimal(ds[..|ds| - 1]) + (ds[|ds| - 1] as int - '0' as int)
  }

  /**
   * `strtol(value, NULL, 10)`: optional white space, an optional sign and
   * the longest run of digits; 0 when there are no digits.
   */
  function LeadingInt(s: string): (v: int)
    ensures v < 0 ==> SkipSpaces(s, 0) < |s| && s[SkipSpaces(s, 0)] == '-'
    ensures (forall k :: 0 <= k < |s| ==> IsDigit(s[k])) ==> v == Decimal(s)
  {
    var i := SkipSpaces(s, 0);
    var neg := i < |s| && s[i] == '-';
    var j := if i < |s| && (s[i] == '-' || s[i] == '+') then i + 1 else i;
    var d := DigitRun(s, j);
    var n: int := Decimal(s[j..d]);
    assert (forall k :: 0 <= k < |s| ==> IsDigit(s[k])) ==> i == 0 && j == 0 && d == |s| && s[j..d] == s;
    if neg then -n else n
  }

  /** Any index with the characterisation of `DigitRun` is `DigitRun`. */
  lemma DigitRunUnique(x: seq<char>, i: nat, j: nat)
    requires i <= j <= |x| && (j < |x| ==> !IsDigit(x[j]))
    requires forall k :: i <= k < j ==> IsDigit(x[k])
    ensures DigitRun(x, i) == j
  {
  }

  /**
   * What `strtol` reads from a string made of leading white space `ws`, a
   * sign `sg` (none, `+` or `-`), a digit run `ds` and a `rest` that does
   * not continue the digits: the value of the digits, negated after `-`.
   * Text after the digits is ignored, and with no digits the value is 0.
   * The last condition makes the split the one `strtol` sees when there is
   * neither a sign nor a digit: `ws` is all of the leading white space and
   * `rest` does not begin with a sign.
   */
  lemma LeadingIntSplit(ws: string, sg: string, ds: string, rest: string)
    requires forall k :: 0 <= k < |ws| ==> IsSpace(ws[k])
    requires sg == "" || sg == "+" || sg == "-"
    requires forall k :: 0 <= k < |ds| ==> IsDigit(ds[k])
    requires rest == [] || !IsDigit(rest[0])
    requires sg == "" && ds == [] && rest != [] ==> !IsSpace(rest[0]) && rest[0] != '+' && rest[0] != '-'
    ensures LeadingInt(ws + sg + ds + rest) == (if sg == "-" then -(Decimal(ds) as int) else Decimal(ds))
  {
    var x := ws + sg + ds + rest;
    var i := |ws|;
    var j := |ws| + |sg|;
    AfterSpaces(ws, sg, ds, rest);
    MiddleSlice(ws + sg, ds, rest);
    if rest != [] {
      assert x[j + |ds|] == rest[0];
    }
    DigitsThenNot(x, j, ds);
    LeadingIntFrom(x, i, j, j + |ds|, sg == "-", ds);
  }

  /** In such a string the white space ends after `ws`, and what follows is a sign exactly when `sg` is one. */
  lemma AfterSpaces(ws: string, sg: string, ds: string, rest: string)
    requires forall k :: 0 <= k < |ws| ==> IsSpace(ws[k])
    requires sg == "" || sg == "+" || sg == "-"
    requires ds == [] || IsDigit(ds[0])
    requires sg == "" && ds == [] && rest != [] ==> !IsSpace(rest[0]) && rest[0] != '+' && rest[0] != '-'
    ensures var x := ws + sg + ds + rest;
            SkipSpaces(x, 0) == |ws| &&
            (|ws| < |x| && (x[|ws|] == '-' || x[|ws|] == '+')) == (sg != "") &&
            (|ws| < |x| && x[|ws|] == '-') == (sg == "-")
  {
    var x := ws + sg + ds + rest;
    var i := |ws|;
    assert forall k :: 0 <= k < i ==> x[k] == ws[k];
    if sg != "" {
      assert x[i] == sg[0];
    } else if ds != [] {
      assert x[i] == ds[0];
    } else if rest != [] {
      assert x[i] == rest[0];
    }
    SkipSpacesUnique(x, i);
  }

  /** `LeadingInt` read off the end of the white space, the sign and the digit run. */
  lemma LeadingIntFrom(x: string, i: nat, j: nat, d: nat, neg: bool, ds: string)
    requires i <= |x| && SkipSpaces(x, 0) == i
    requires j == (if i < |x| && (x[i] == '-' || x[i] == '+') then i + 1 else i)
    requires neg == (i < |x| && x[i] == '-')
    requires j <= d <= |x| && DigitRun(x, j) == d && x[j..d] == ds
    requires forall k :: 0 <= k < |ds| ==> IsDigit(ds[k])
    ensures LeadingInt(x) == (if neg then -(Decimal(ds) as int) else Decimal(ds))
  {
  }

  /** The digit run from `j` ends where the digits `ds` found there end, unless the next character is a digit too. */
  lemma DigitsThenNot(x: string, j: nat, ds: string)
    requires j + |ds| <= |x| && x[j..j + |ds|] == ds
    requires forall k :: 0 <= k < |ds| ==> IsDigit(ds[k])
    requires j + |ds| == |x| || !IsDigit(x[j + |ds|])
    ensures DigitRun(x, j) == j + |ds|
  {
    forall k | j <= k < j + |ds|
      ensures IsDigit(x[k])
    {
      assert x[k] == x[j..j + |ds|][k - j];
    }
    DigitRunUnique(x, j, j + |ds|);
  }

  /** The middle part of a three-part string is read back by slicing. */
  lemma MiddleSlice(pre: string, ds: string, rest: string)
    ensures (pre + ds + rest)[|pre|..|pre| + |ds|] == ds
  {
    var x := pre + ds + rest;
    forall k | 0 <= k < |ds|
      ensures x[|pre|..|pre| + |ds|][k] == ds[k]
    {
      assert x[|pre| + k] == ds[k];
    }
  }

  /** `strtol` takes a sign: `-5` reads as -5. */
  lemma LeadingIntNegative()
    ensures LeadingInt("-5") == -5
  {
    assert "" + "-" + "5" + "" == "-5";
    LeadingIntSplit("", "-", "5", "");
    assert "5"[..0] == "";
  }

  /** `strtol` stops at the first non-digit: `20px` reads as 20. */
  lemma LeadingIntStopsAtUnit()
    ensures LeadingInt("20px") == 20
  {
    assert "" + "" + "20" + "px" == "20px";
    LeadingIntSplit("", "", "20", "px");
    assert Decimal("2") == 2 by {
      assert "2"[..0] == "";
    }
    assert "20"[..1] == "2";
  }

  /** `strtol` gives 0 when there are no digits: `abc` reads as 0. */
  lemma LeadingIntNoDigits()
    ensures LeadingInt("abc") == 0
  {
    assert "" + "" + "" + "abc" == "abc";
    LeadingIntSplit("", "", "", "abc");
  }

  /** `strtol` skips leading white space and a `+`: ` +7` reads as 7. */
  lemma LeadingIntPlus()
    ensures LeadingInt(" +7") == 7
  {
    assert " " + "+" + "7" + "" == " +7";
    LeadingIntSplit(" ", "+", "7", "");
    assert "7"[..0] == "";
  }

  // ---------------------------------------------------------------------
  // One configuration line
  // ---------------------------------------------------------------------

  /** The settings a configuration file can change. */
  datatype Settings = Settings(modifier: nat, gap: int)

  /** `set_default_config`. */
  const Defaults: Settings := Settings(Mod4Mask, DefaultGap)

  /**
   * What a `key = value` pair does, keys compared case-insensitively: a
   * known modifier name sets the modifier, a `gap` whose leading integer
   * lies in 0..300 sets the gap, and everything else (including `hotkey`,
   * and a `modifier` whose value is not a known name) changes nothing.
   */
  function ApplyPair(cfg: Settings, key: string, value: string): Settings
  {
    if EqualsIgnoreCase(key, "modifier") && ParseModifier(value).Some? then
      cfg.(modifier := ParseModifier(value).value)
    else if EqualsIgnoreCase(key, "hotkey") then
      cfg
    else if EqualsIgnoreCase(key, "gap") && 0 <= LeadingInt(value) <= MaxGap then
      cfg.(gap := LeadingInt(value))
    else
      cfg
  }

  /**
   * What a trimmed line does: blank lines, comment lines and lines without
   * `=` are skipped; otherwise the text before the first `=` is the key and
   * the text after it the value, both trimmed again.
   */
  function ApplyTrimmed(cfg: Settings, t: string): Settings
  {
    if t == [] || t[0] == '#' then cfg
    else
      match Find(t, '=')
      case None => cfg
      case Some(i) => ApplyPair(cfg, TrimSeq(t[..i]), TrimSeq(t[i + 1..]))
  }

  /** What one line does: the line is trimmed first. */
  function ApplyLine(cfg: Settings, text: string): Settings
  {
    ApplyTrimmed(cfg, TrimSeq(text))
  }

  /** Blank lines, comment lines and lines without `=` change nothing. */
  lemma SkippedLinesChangeNothing(cfg: Settings, text: string)
    requires var t := TrimSeq(text); t == [] || t[0] == '#' || '=' !in t
    ensures ApplyLine(cfg, text) == cfg
  {
  }

  /** A line with a key is the pair split at its first `=`, both sides trimmed. */
  lemma ApplyLineSplits(cfg: Settings, text: string)
    requires var t := TrimSeq(text); t != [] && t[0] != '#' && '=' in t
    ensures var t := TrimSeq(text);
            exists i :: 0 <= i < |t| && t[i] == '=' && '=' !in t[..i] &&
                        ApplyLine(cfg, text) == ApplyPair(cfg, TrimSeq(t[..i]), TrimSeq(t[i + 1..]))
  {
    var t := TrimSeq(text);
    var i := Find(t, '=').value;
    assert t[i] == '=';
  }

  /**
   * A `gap` pair whose value lies in 0..300 sets the gap, and a `modifier`
   * pair naming a known modifier sets that mask. Conversely the gap changes
   * only through such a `gap` pair, the modifier only through such a
   * `modifier` pair, and never both at once.
   */
  lemma ApplyPairChanges(cfg: Settings, key: string, value: string)
    ensures var r := ApplyPair(cfg, key, value);
            && (r.gap != cfg.gap ==> EqualsIgnoreCase(key, "gap") && r.gap == LeadingInt(value) && 0 <= r.gap <= MaxGap)
            && (r.modifier != cfg.modifier ==> EqualsIgnoreCase(key, "modifier") && ParseModifier(value) == Some(r.modifier))
            && (r.gap == cfg.gap || r.modifier == cfg.modifier)
    ensures EqualsIgnoreCase(key, "gap") && 0 <= LeadingInt(value) <= MaxGap ==>
              ApplyPair(cfg, key, value) == cfg.(gap := LeadingInt(value))
    ensures EqualsIgnoreCase(key, "modifier") && ParseModifier(value).Some? ==>
              ApplyPair(cfg, key, value) == cfg.(modifier := ParseModifier(value).value)
  {
    if EqualsIgnoreCase(key, "gap") {
      assert |key| == 3;
    }
  }

  /** A `gap` pair whose value is outside 0..300 changes nothing. */
  lemma GapOutOfRangeIgnored(cfg: Settings, key: string, value: string)
    requires EqualsIgnoreCase(key, "gap") && !(0 <= LeadingInt(value) <= MaxGap)
    ensures ApplyPair(cfg, key, value) == cfg
  {
    assert |key| == 3;
  }

  /** A `modifier` pair whose value is not a known name changes nothing. */
  lemma UnknownModifierIgnored(cfg: Settings, key: string, value: string)
    requires EqualsIgnoreCase(key, "modifier") && ParseModifier(value).None?
    ensures ApplyPair(cfg, key, value) == cfg
  {
    assert |key| == 8;
  }

  /** Settings a configuration can produce: a known modifier mask and a gap in 0..300. */
  predicate Valid(cfg: Settings)
  {
    cfg.modifier in {ShiftMask, ControlMask, Mod1Mask, Mod4Mask} && 0 <= cfg.gap <= MaxGap
  }

  /** One line keeps settings valid. */
  lemma ApplyLineValid(cfg: Settings, text: string)
    requires Valid(cfg)
    ensures Valid(ApplyLine(cfg, text))
  {
    var t := TrimSeq(text);
    if t != [] && t[0] != '#' && Find(t, '=').Some? {
      var i := Find(t, '=').value;
      ApplyPairChanges(cfg, TrimSeq(t[..i]), TrimSeq(t[i + 1..]));
    }
  }

  /** The text the line-processing code sees: a line up to its first NUL. */
  function LineText(raw: string): string
  {
    CStr(raw + [NUL], 0)
  }

  /** The settings after applying the lines in order. */
  function ApplyLines(cfg: Settings, lines: seq<string>): Settings
  {
    if lines == [] then cfg else ApplyLine(ApplyLines(cfg, lines[..|lines| - 1]), LineText(lines[|lines| - 1]))
  }

  /** Starting from the defaults, any sequence of lines yields valid settings. */
  lemma {:induction false} ApplyLinesValid(cfg: Settings, lines: seq<string>)
    requires Valid(cfg)
    ensures Valid(ApplyLines(cfg, lines))
  {
    if lines != [] {
      ApplyLinesValid(cfg, lines[..|lines| - 1]);
      ApplyLineValid(ApplyLines(cfg, lines[..|lines| - 1]), LineText(lines[|lines| - 1]));
    }
  }

  lemma DefaultsValid()
    ensures Valid(Defaults)
  {
  }

  // ---------------------------------------------------------------------
  // The configuration record and `load_config_file`
  // ---------------------------------------------------------------------

  /** The first character of a C string, or NUL when it is empty. */
  lemma CStrHead(buf: seq<char>, p: nat)
    requires p < |buf|
    ensures buf[p] == NUL <==> CStr(buf, p) == []
    ensures buf[p] != NUL ==> CStr(buf, p)[0] == buf[p]
  {
    if buf[p] == NUL {
      StrEndUnique(buf, p, p);
    }
  }

  /** Trimming the key, which ends at the NUL over the `=`, leaves the value's C string alone. */
  lemma KeyTrimKeepsValue(rest: seq<char>, keyed: seq<char>, p: nat, eq: nat)
    requires |keyed| == |rest| && p <= eq < |rest| && StrEnd(rest, p) == eq && StrEnd(rest, eq + 1) < |rest|
    requires AgreeOutside(rest, keyed, p, StrEnd(rest, p))
    ensures StrEnd(keyed, eq + 1) == StrEnd(rest, eq + 1) && CStr(keyed, eq + 1) == CStr(rest, eq + 1)
  {
    CStrFrame(rest, keyed, eq + 1);
  }

  /** Trimming the value, which starts after the `=`, leaves the trimmed key alone. */
  lemma ValueTrimKeepsKey(keyed: seq<char>, after: seq<char>, key: nat, eq: nat)
    requires |after| == |keyed| && key <= eq < |keyed| && StrEnd(keyed, key) <= eq
    requires AgreeOutside(keyed, after, eq + 1, StrEnd(keyed, eq + 1))
    ensures CStr(after, key) == CStr(keyed, key)
  {
    CStrFrame(keyed, after, key);
  }

  /**
   * The split in `load_config_file`: a NUL over the `=` at offset `i` of the
   * C string at `p`, then `trim` on the key before it and on the value
   * after it; returns where the trimmed key and value start.
   */
  method SplitAt(line: array<char>, p: nat, i: nat) returns (key: nat, value: nat)
    requires p < line.Length && p + i < StrEnd(line[..], p) < line.Length
    modifies line
    ensures key <= line.Length && value <= line.Length
    ensures CStr(line[..], key) == TrimSeq(CStr(old(line[..]), p)[..i])
    ensures CStr(line[..], value) == TrimSeq(CStr(old(line[..]), p)[i + 1..])
  {
    var eq := p + i;
    ghost var before := line[..];
    line[eq] := NUL;
    CutAt(before, line[..], p, eq);
    ghost var rest := line[..];
    key := Trim(line, p);
    KeyTrimKeepsValue(rest, line[..], p, eq);
    ghost var keyed := line[..];
    value := Trim(line, eq + 1);
    ValueTrimKeepsKey(keyed, line[..], key, eq);
  }

  /** The configuration record the loader updates in place. */
  class Config {
    var modifier: nat
    var gap: int

    /** `set_default_config`. */
    constructor ()
      ensures Current() == Defaults
    {
      modifier := Mod4Mask;
      gap := DefaultGap;
    }

    function Current(): Settings
      reads this
    {
      Settings(modifier, gap)
    }

    /**
     * The body of the line loop of `load_config_file` on one line buffer:
     * trims it, skips it when it is blank, a comment or has no `=`, splits
     * it in place at the first `=`, and updates the modifier or the gap.
     */
    method ProcessLine(line: array<char>)
      requires line.Length > 0 && StrEnd(line[..], 0) < line.Length
      modifies this, line
      ensures Current() == ApplyLine(old(Current()), CStr(old(line[..]), 0))
    {
      var p := Trim(line, 0);
      ProcessTrimmed(line, p);
    }

    /** The rest of the loop body, once the line is trimmed to the C string at `p`. */
    method ProcessTrimmed(line: array<char>, p: nat)
      requires p < line.Length && StrEnd(line[..], p) < line.Length
      modifies this, line
      ensures Current() == ApplyTrimmed(old(Current()), CStr(old(line[..]), p))
    {
      CStrHead(line[..], p);
      if line[p] == NUL || line[p] == '#' {
        return;
      }
      var found := Find(CStr(line[..], p), '=');
      if found.None? {
        return;
      }
      ProcessPair(line, p, found.value);
    }

    /** Splits the C string at `p` at offset `i`, where its first `=` is, and applies the key and value. */
    method ProcessPair(line: array<char>, p: nat, i: nat)
      requires p < line.Length && p + i < StrEnd(line[..], p) < line.Length
      modifies this, line
      ensures var t := CStr(old(line[..]), p);
              Current() == ApplyPair(old(Current()), TrimSeq(t[..i]), TrimSeq(t[i + 1..]))
    {
      var key, value := SplitAt(line, p, i);
      ApplyPairInPlace(CStr(line[..], key), CStr(line[..], value));
    }

    /** The key dispatch of `load_config_file` on a trimmed key and value. */
    method ApplyPairInPlace(k: string, v: string)
      modifies this
      ensures Current() == ApplyPair(old(Current()), k, v)
    {
      if EqualsIgnoreCase(k, "modifier") && ParseModifier(v).Some? {
        modifier := ParseModifier(v).value;
      } else if EqualsIgnoreCase(k, "hotkey") {
        // The key symbol lookup is not modelled; these settings stay as they are.
      } else if EqualsIgnoreCase(k, "gap") {
        var n := LeadingInt(v);
        if 0 <= n <= MaxGap {
          gap := n;
        }
      }
    }

    /** The line loop of `load_config_file`: each line is copied into a NUL-terminated buffer and processed. */
    method LoadLines(lines: seq<string>)
      modifies this
      ensures Current() == ApplyLines(old(Current()), lines)
    {
      for n := 0 to |lines|
        invariant Current() == ApplyLines(old(Current()), lines[..n])
      {
        var raw := lines[n];
        var buf := new char[|raw| + 1](k => if 0 <= k < |raw| then raw[k] else NUL);
        assert buf[..] == raw + [NUL];
        assert buf[|raw|] == NUL;
        ProcessLine(buf);
        assert lines[..n + 1][..n] == lines[..n];
      }
      assert lines[..|lines|] == lines;
    }
  }
}
