/** Character and string primitives of the JavaScript runtime that the search
    code relies on: the `\s` and `\w` regular-expression classes, `trim`,
    `toLowerCase`, NFD decomposition followed by removal of combining marks,
    `startsWith`, `includes`, `indexOf`, and the ordering used by
    `localeCompare`.

    Unicode is modelled through tables for ASCII and Latin-1; a character
    outside those tables is mapped to itself. */
module Text {
  import Seqs

  /** JavaScript's WhiteSpace and LineTerminator characters: what `\s`
      matches and what `String.prototype.trim` removes. */
  predicate IsSpace(c: char) {
    || c == ' ' || c == '\t' || c == '\n' || c == '\r'
    || c == '\U{000B}' || c == '\U{000C}' || c == '\U{00A0}' || c == '\U{1680}'
    || ('\U{2000}' <= c <= '\U{200A}')
    || c == '\U{2028}' || c == '\U{2029}' || c == '\U{202F}' || c == '\U{205F}'
    || c == '\U{3000}' || c == '\U{FEFF}'
  }

  /** The `\w` class of a regular expression without the `u` flag. */
  predicate IsWordChar(c: char) {
    ('a' <= c <= 'z') || ('A' <= c <= 'Z') || ('0' <= c <= '9') || c == '_'
  }

  predicate IsAsciiUpper(c: char) {
    'A' <= c <= 'Z'
  }

  /** Upper-case Latin-1 letters À–Þ, except the multiplication sign ×. */
  predicate IsLatin1Upper(c: char) {
    '\U{00C0}' <= c <= '\U{00DE}' && c != '\U{00D7}'
  }

  /** `toLowerCase` of one character. Length preserving: every upper-case
      ASCII or Latin-1 letter maps to its lower-case partner 32 code points
      above, everything else to itself. */
  function Lower(c: char): char {
    if IsAsciiUpper(c) || IsLatin1Upper(c) then (c as int + 32) as char else c
  }

  function LowerStr(s: string): string {
    seq(|s|, i requires 0 <= i < |s| => Lower(s[i]))
  }

  /** Lower-casing commutes with taking a slice. */
  lemma LowerSlice(s: string, i: nat, j: nat)
    requires i <= j <= |s|
    ensures LowerStr(s[i..j]) == LowerStr(s)[i..j]
  {
    assert forall k :: 0 <= k < j - i ==> LowerStr(s[i..j])[k] == Lower(s[i + k]);
  }

  /** The combining diacritical marks U+0300–U+036F removed after NFD. */
  predicate IsCombiningMark(c: char) {
    '\U{0300}' <= c <= '\U{036F}'
  }

  /** The base letter left by NFD decomposition of a precomposed Latin-1
      letter once its combining mark is removed. Latin-1 letters without a
      canonical decomposition (æ, ð, ø, þ, ß, …) map to themselves. */
  function BaseLetter(c: char): char {
    if '\U{00E0}' <= c <= '\U{00E5}' then 'a'
    else if c == '\U{00E7}' then 'c'
    else if '\U{00E8}' <= c <= '\U{00EB}' then 'e'
    else if '\U{00EC}' <= c <= '\U{00EF}' then 'i'
    else if c == '\U{00F1}' then 'n'
    else if '\U{00F2}' <= c <= '\U{00F6}' then 'o'
    else if '\U{00F9}' <= c <= '\U{00FC}' then 'u'
    else if c == '\U{00FD}' || c == '\U{00FF}' then 'y'
    else if '\U{00C0}' <= c <= '\U{00C5}' then 'A'
    else if c == '\U{00C7}' then 'C'
    else if '\U{00C8}' <= c <= '\U{00CB}' then 'E'
    else if '\U{00CC}' <= c <= '\U{00CF}' then 'I'
    else if c == '\U{00D1}' then 'N'
    else if '\U{00D2}' <= c <= '\U{00D6}' then 'O'
    else if '\U{00D9}' <= c <= '\U{00DC}' then 'U'
    else if c == '\U{00DD}' then 'Y'
    else c
  }

  /** `s.normalize('NFD').replace(/[\u0300-\u036f]/g, '')`. */
  function StripDiacritics(s: string): string {
    if |s| == 0 then ""
    else (if IsCombiningMark(s[0]) then "" else [BaseLetter(s[0])]) + StripDiacritics(s[1..])
  }

  /** `s.replace(/[^\w\s]/gi, '')`: keeps word characters and whitespace. */
  function RemoveSpecial(s: string): string {
    if |s| == 0 then ""
    else (if IsWordChar(s[0]) || IsSpace(s[0]) then [s[0]] else "") + RemoveSpecial(s[1..])
  }

  ghost predicate AllSpace(s: string) {
    forall i :: 0 <= i < |s| ==> IsSpace(s[i])
  }

  /** Leading whitespace removed. */
  function TrimStart(s: string): (r: string)
    ensures |r| <= |s| && r == s[|s| - |r|..]
    ensures |r| > 0 ==> !IsSpace(r[0])
    ensures AllSpace(s[..|s| - |r|])
  {
    if |s| > 0 && IsSpace(s[0]) then
      var r := TrimStart(s[1..]);
      assert s[1..][..|s[1..]| - |r|] == s[1..|s| - |r|];
      r
    else s
  }

  /** Trailing whitespace removed. */
  function TrimEnd(s: string): (r: string)
    ensures |r| <= |s| && r == s[..|r|]
    ensures |r| > 0 ==> !IsSpace(r[|r| - 1])
    ensures AllSpace(s[|r|..])
  {
    if |s| > 0 && IsSpace(s[|s| - 1]) then
      var r := TrimEnd(s[..|s| - 1]);
      assert s[..|s| - 1][|r|..] + [s[|s| - 1]] == s[|r|..];
      r
    else s
  }

  /** `String.prototype.trim`. */
  function Trim(s: string): string {
    TrimEnd(TrimStart(s))
  }

  /** `trim` returns the infix of `s` between a whitespace prefix and a
      whitespace suffix; `off` is the length of that prefix. */
  lemma TrimBounds(s: string) returns (off: nat)
    ensures off + |Trim(s)| <= |s| && Trim(s) == s[off..off + |Trim(s)|]
    ensures forall k :: 0 <= k < off ==> IsSpace(s[k])
    ensures forall k :: off + |Trim(s)| <= k < |s| ==> IsSpace(s[k])
  {
    var t := TrimStart(s);
    off := |s| - |t|;
    TrimStartSpaces(s);
    TrimEndSpaces(s, off);
    assert Trim(s) == TrimEnd(s[off..]);
  }

  lemma TrimStartSpaces(s: string)
    ensures forall k :: 0 <= k < |s| - |TrimStart(s)| ==> IsSpace(s[k])
  {
    var off := |s| - |TrimStart(s)|;
    assert s[..off] == s[0..off];
    SpaceSlice(s, 0, off);
  }

  lemma TrimEndSpaces(s: string, off: nat)
    requires off <= |s|
    ensures off + |TrimEnd(s[off..])| <= |s|
    ensures TrimEnd(s[off..]) == s[off..off + |TrimEnd(s[off..])|]
    ensures forall k :: off + |TrimEnd(s[off..])| <= k < |s| ==> IsSpace(s[k])
  {
    var t := s[off..];
    var r := TrimEnd(t);
    assert t[..|r|] == s[off..off + |r|];
    assert t[|r|..] == s[off + |r|..|s|];
    SpaceSlice(s, off + |r|, |s|);
  }

  /** A trimmed string starts and ends with a non-whitespace character. */
  lemma TrimEndsClean(s: string)
    ensures |Trim(s)| > 0 ==> !IsSpace(Trim(s)[0]) && !IsSpace(Trim(s)[|Trim(s)| - 1])
  {
    var t := TrimStart(s);
    var r := TrimEnd(t);
    if |r| > 0 {
      assert r[0] == t[0];
    }
  }

  /** A whitespace slice is whitespace at every index it covers. */
  lemma SpaceSlice(s: string, lo: nat, hi: nat)
    requires lo <= hi <= |s| && AllSpace(s[lo..hi])
    ensures forall k :: lo <= k < hi ==> IsSpace(s[k])
  {
    forall k | lo <= k < hi
      ensures IsSpace(s[k])
    {
      assert s[lo..hi][k - lo] == s[k];
    }
  }

  predicate NotSpace(c: char) {
    !IsSpace(c)
  }

  /** A whitespace-only string has no non-whitespace characters. */
  lemma {:induction false} FilterAllSpace(s: string)
    requires forall k :: 0 <= k < |s| ==> IsSpace(s[k])
    ensures Seqs.Filter(NotSpace, s) == []
  {
    if |s| > 0 {
      FilterAllSpace(s[1..]);
    }
  }

  /** `trim` removes whitespace only: the non-whitespace characters of the
      input all survive, in order. */
  lemma {:induction false} TrimKeepsNonSpace(s: string)
    ensures Seqs.Filter(NotSpace, Trim(s)) == Seqs.Filter(NotSpace, s)
  {
    var t := Trim(s);
    var off := TrimBounds(s);
    var hi := off + |t|;
    assert t == s[off..hi];
    PaddedNonSpace(s, off, hi);
  }

  /** Cutting whitespace off both ends keeps the non-whitespace characters. */
  lemma {:induction false} PaddedNonSpace(s: string, lo: nat, hi: nat)
    requires lo <= hi <= |s|
    requires forall k :: 0 <= k < lo ==> IsSpace(s[k])
    requires forall k :: hi <= k < |s| ==> IsSpace(s[k])
    ensures Seqs.Filter(NotSpace, s[lo..hi]) == Seqs.Filter(NotSpace, s)
  {
    calc {
      Seqs.Filter(NotSpace, s);
      { Seqs.FilterSplit(NotSpace, s, lo, hi); }
      Seqs.Filter(NotSpace, s[..lo]) + Seqs.Filter(NotSpace, s[lo..hi]) + Seqs.Filter(NotSpace, s[hi..]);
      { FilterAllSpace(s[..lo]); FilterAllSpace(s[hi..]); }
      [] + Seqs.Filter(NotSpace, s[lo..hi]) + [];
      Seqs.Filter(NotSpace, s[lo..hi]);
    }
  }

  /** `RemoveSpecial` keeps exactly the word characters and the whitespace:
      the non-whitespace characters of its output are the word characters
      of its input, in order. */
  lemma {:induction false} RemoveSpecialKeepsWords(s: string)
    ensures Seqs.Filter(NotSpace, RemoveSpecial(s)) == Seqs.Filter(IsWordChar, s)
  {
    if |s| > 0 {
      var head := if IsWordChar(s[0]) || IsSpace(s[0]) then [s[0]] else "";
      calc {
        Seqs.Filter(NotSpace, RemoveSpecial(s));
        Seqs.Filter(NotSpace, head + RemoveSpecial(s[1..]));
        { Seqs.FilterAppend(NotSpace, head, RemoveSpecial(s[1..])); }
        Seqs.Filter(NotSpace, head) + Seqs.Filter(NotSpace, RemoveSpecial(s[1..]));
        { RemoveSpecialKeepsWords(s[1..]); KeptHeadWord(s[0]); }
        (if IsWordChar(s[0]) then [s[0]] else []) + Seqs.Filter(IsWordChar, s[1..]);
        Seqs.Filter(IsWordChar, s);
      }
    }
  }

  /** What `RemoveSpecial` keeps of one character, with whitespace then
      dropped, is that character exactly when it is a word character. */
  lemma KeptHeadWord(c: char)
    ensures Seqs.Filter(NotSpace, if IsWordChar(c) || IsSpace(c) then [c] else "")
            == if IsWordChar(c) then [c] else []
  {
    Seqs.FilterSingleton(NotSpace, c);
  }

  /** `s.startsWith(p)`. */
  predicate StartsWith(s: string, p: string) {
    |p| <= |s| && s[..|p|] == p
  }

  /** `t` occurs in `s` starting at index `i`. */
  predicate OccursAt(s: string, t: string, i: int) {
    0 <= i && i + |t| <= |s| && s[i..i + |t|] == t
  }

  /** `s.includes(t)`. */
  predicate Includes(s: string, t: string) {
    exists i :: 0 <= i <= |s| && OccursAt(s, t, i)
  }

  /** The search loop of `s.indexOf(t)`, starting at position `from`: the
      first occurrence at or after `from`, or -1 when there is none. */
  function IndexFrom(s: string, t: string, from: nat): (r: int)
    decreases |s| - from
    ensures r == -1 || (from <= r && OccursAt(s, t, r))
    ensures r == -1 ==> forall j :: from <= j ==> !OccursAt(s, t, j)
    ensures r >= 0 ==> forall j :: from <= j < r ==> !OccursAt(s, t, j)
  {
    if from + |t| > |s| then -1
    else if OccursAt(s, t, from) then from
    else IndexFrom(s, t, from + 1)
  }

  /** `s.indexOf(t)`. */
  function IndexOf(s: string, t: string): (r: int)
    ensures r >= 0 <==> Includes(s, t)
    ensures r >= 0 ==> OccursAt(s, t, r) && forall j :: 0 <= j < r ==> !OccursAt(s, t, j)
  {
    IndexFrom(s, t, 0)
  }

  /** Code-point lexicographic order: the model of `a.localeCompare(b) < 0`. */
  predicate StrLess(a: string, b: string) {
    if |a| == 0 then |b| > 0
    else if |b| == 0 then false
    else if a[0] != b[0] then a[0] < b[0]
    else StrLess(a[1..], b[1..])
  }

  lemma StartsWithIncludes(s: string, t: string)
    requires StartsWith(s, t)
    ensures Includes(s, t)
  {
    assert OccursAt(s, t, 0);
  }

  lemma {:induction false} StrLessIrreflexive(a: string)
    ensures !StrLess(a, a)
  {
    if |a| > 0 {
      StrLessIrreflexive(a[1..]);
    }
  }

  lemma {:induction false} StrLessTransitive(a: string, b: string, c: string)
    requires StrLess(a, b) && StrLess(b, c)
    ensures StrLess(a, c)
  {
    if |a| > 0 && |b| > 0 && |c| > 0 && a[0] == b[0] == c[0] {
      StrLessTransitive(a[1..], b[1..], c[1..]);
    }
  }

  lemma {:induction false} StrLessTotal(a: string, b: string)
    requires a != b
    ensures StrLess(a, b) || StrLess(b, a)
  {
    if |a| > 0 && |b| > 0 && a[0] == b[0] {
      assert a == [a[0]] + a[1..] && b == [b[0]] + b[1..];
      StrLessTotal(a[1..], b[1..]);
    }
  }

  /** A string trims to "" exactly when it consists of whitespace only. */
  lemma TrimEmptyIffAllSpace(s: string)
    ensures Trim(s) == "" <==> AllSpace(s)
  {
    var t := TrimStart(s);
    if t == "" {
      assert s[..|s|] == s;
    } else {
      assert !IsSpace(TrimEnd(t)[0]) by { assert TrimEnd(t)[0] == t[0]; }
      assert s[|s| - |t|] == t[0];
    }
  }

  /** Whitespace added before a string is removed by `trimStart`. */
  lemma {:induction false} TrimStartPadded(pad: string, s: string)
    requires AllSpace(pad)
    ensures TrimStart(pad + s) == TrimStart(s)
  {
    if |pad| > 0 {
      assert (pad + s)[1..] == pad[1..] + s;
      TrimStartPadded(pad[1..], s);
    } else {
      assert pad + s == s;
    }
  }

  /** Whitespace added after a string is removed by `trimEnd`. */
  lemma {:induction false} TrimEndPadded(s: string, pad: string)
    requires AllSpace(pad)
    ensures TrimEnd(s + pad) == TrimEnd(s)
  {
    if |pad| > 0 {
      assert (s + pad)[..|s + pad| - 1] == s + pad[..|pad| - 1];
      TrimEndPadded(s, pad[..|pad| - 1]);
    } else {
      assert s + pad == s;
    }
  }

  /** Trailing whitespace passes through `trimStart` unless the whole
      string is whitespace. */
  lemma {:induction false} TrimStartKeepsTail(s: string, pad: string)
    requires AllSpace(pad)
    ensures TrimStart(s + pad) == if AllSpace(s) then TrimStart(pad) else TrimStart(s) + pad
  {
    if |s| == 0 {
      assert s + pad == pad;
    } else {
      AllSpaceCons(s);
      assert (s + pad)[0] == s[0];
      if IsSpace(s[0]) {
        assert (s + pad)[1..] == s[1..] + pad;
        TrimStartKeepsTail(s[1..], pad);
      }
    }
  }

  /** Text after a string that is not all whitespace passes through
      `trimStart` untouched. */
  lemma {:induction false} TrimStartAppend(x: string, z: string)
    requires !AllSpace(x)
    ensures TrimStart(x + z) == TrimStart(x) + z
  {
    AllSpaceCons(x);
    assert (x + z)[0] == x[0];
    if IsSpace(x[0]) {
      assert (x + z)[1..] == x[1..] + z;
      TrimStartAppend(x[1..], z);
    }
  }

  /** `trimStart` keeps a non-space last character, and shortens a string
      that starts with whitespace. */
  lemma {:induction false} TrimStartKeepsLast(x: string)
    requires |x| > 0 && !IsSpace(x[|x| - 1])
    ensures var t := TrimStart(x);
            && |t| > 0 && t[|t| - 1] == x[|x| - 1]
            && (IsSpace(x[0]) ==> |t| < |x|)
  {
    if IsSpace(x[0]) {
      TrimStartKeepsLast(x[1..]);
    }
  }

  /** A string of word characters and whitespace survives `RemoveSpecial`
      whole. */
  lemma {:induction false} RemoveSpecialKeepsAll(s: string)
    requires forall i :: 0 <= i < |s| ==> IsWordChar(s[i]) || IsSpace(s[i])
    ensures RemoveSpecial(s) == s
  {
    if |s| > 0 {
      RemoveSpecialKeepsAll(s[1..]);
      assert s == [s[0]] + s[1..];
    }
  }

  lemma AllSpaceCons(s: string)
    requires |s| > 0
    ensures AllSpace(s) <==> IsSpace(s[0]) && AllSpace(s[1..])
  {
    if IsSpace(s[0]) && AllSpace(s[1..]) {
      forall i | 0 < i < |s| ensures IsSpace(s[i]) {
        assert s[i] == s[1..][i - 1];
      }
    }
  }

  /** Whitespace on both sides does not change what `trim` returns. */
  lemma TrimPadded(pad: string, s: string)
    requires AllSpace(pad)
    ensures Trim(pad + s + pad) == Trim(s)
  {
    assert pad + s + pad == pad + (s + pad);
    TrimStartPadded(pad, s + pad);
    TrimStartKeepsTail(s, pad);
    if AllSpace(s) {
      TrimStartPadded(pad, "");
      assert pad + "" == pad;
      TrimEmptyIffAllSpace(s);
      assert TrimStart(pad) == "";
      assert TrimEnd(TrimStart(s)) == "";
      assert TrimEnd("") == "";
    } else {
      TrimEndPadded(TrimStart(s), pad);
    }
  }

  /** No character of `s` is whitespace. */
  predicate NoSpace(s: string) {
    forall i :: 0 <= i < |s| ==> !IsSpace(s[i])
  }

  /** Lower-casing works character by character, so it distributes over
      concatenation. */
  lemma LowerStrAppend(a: string, b: string)
    ensures LowerStr(a + b) == LowerStr(a) + LowerStr(b)
  {
    assert forall i :: 0 <= i < |a + b| ==> LowerStr(a + b)[i] == (LowerStr(a) + LowerStr(b))[i];
  }

  lemma {:induction false} StripDiacriticsAppend(a: string, b: string)
    ensures StripDiacritics(a + b) == StripDiacritics(a) + StripDiacritics(b)
  {
    if |a| == 0 {
      assert a + b == b;
    } else {
      var head := if IsCombiningMark(a[0]) then "" else [BaseLetter(a[0])];
      assert (a + b)[1..] == a[1..] + b;
      StripDiacriticsAppend(a[1..], b);
      Seqs.AppendAssoc(head, StripDiacritics(a[1..]), StripDiacritics(b));
    }
  }

  lemma {:induction false} RemoveSpecialAppend(a: string, b: string)
    ensures RemoveSpecial(a + b) == RemoveSpecial(a) + RemoveSpecial(b)
  {
    if |a| == 0 {
      assert a + b == b;
    } else {
      var head := if IsWordChar(a[0]) || IsSpace(a[0]) then [a[0]] else "";
      assert (a + b)[1..] == a[1..] + b;
      RemoveSpecialAppend(a[1..], b);
      Seqs.AppendAssoc(head, RemoveSpecial(a[1..]), RemoveSpecial(b));
    }
  }

  /** Lower-casing, accent stripping and dropping special characters leave a
      whitespace run as it is. */
  lemma SpaceRunUnchanged(w: string)
    requires AllSpace(w)
    ensures LowerStr(w) == w
    ensures StripDiacritics(w) == w
    ensures RemoveSpecial(w) == w
  {
    forall i | 0 <= i < |w|
      ensures LowerStr(w)[i] == w[i]
    {
      SpaceUnchanged(w[i]);
    }
    StripSpaceRun(w);
    RemoveSpecialKeepsAll(w);
  }

  lemma SpaceUnchanged(c: char)
    requires IsSpace(c)
    ensures Lower(c) == c && BaseLetter(c) == c && !IsCombiningMark(c)
  {
  }

  lemma {:induction false} StripSpaceRun(w: string)
    requires AllSpace(w)
    ensures StripDiacritics(w) == w
  {
    if |w| > 0 {
      AllSpaceCons(w);
      SpaceUnchanged(w[0]);
      StripSpaceRun(w[1..]);
      assert w == [w[0]] + w[1..];
    }
  }

  /** None of the three steps turns a non-whitespace character into
      whitespace. */
  lemma LowerNoSpace(s: string)
    requires NoSpace(s)
    ensures NoSpace(LowerStr(s))
  {
  }

  lemma {:induction false} StripDiacriticsNoSpace(s: string)
    requires NoSpace(s)
    ensures NoSpace(StripDiacritics(s))
  {
    if |s| > 0 {
      StripDiacriticsNoSpace(s[1..]);
    }
  }

  lemma {:induction false} RemoveSpecialNoSpace(s: string)
    requires NoSpace(s)
    ensures NoSpace(RemoveSpecial(s))
  {
    if |s| > 0 {
      RemoveSpecialNoSpace(s[1..]);
    }
  }

  /** `trim` leaves a string that starts and ends with non-whitespace as it
      is. */
  lemma TrimClean(s: string)
    requires |s| > 0 && !IsSpace(s[0]) && !IsSpace(s[|s| - 1])
    ensures Trim(s) == s
  {
    assert TrimStart(s) == s;
  }
}
