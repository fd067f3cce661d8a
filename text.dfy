/** The few Python `str` operations the application relies on: `isspace`,
    `strip`, `lower`, `endswith` and the tail of `rsplit('.', 1)`. */
module Text {

  /** Python 3's `str.isspace` for one character: the characters whose
      bidirectional class is WS, B or S, or whose category is Zs. */
  predicate IsSpace(c: char): (r: bool)
    ensures r ==> !('!' <= c <= '~')
  {
    c == ' ' || ('\t' <= c <= '\r') || ('\U{1c}' <= c <= '\U{1f}') ||
    c == '\U{85}' || c == '\U{a0}' || c == '\U{1680}' ||
    ('\U{2000}' <= c <= '\U{200a}') || c == '\U{2028}' || c == '\U{2029}' ||
    c == '\U{202f}' || c == '\U{205f}' || c == '\U{3000}'
  }

  /** Every character of `s` is whitespace (vacuously so for the empty string). */
  predicate AllSpace(s: string)
  {
    forall i :: 0 <= i < |s| ==> IsSpace(s[i])
  }

  /** `s` with its leading whitespace removed. */
  function TrimStart(s: string): (r: string)
    ensures |r| <= |s| && r == s[|s| - |r|..]
    ensures forall i :: 0 <= i < |s| - |r| ==> IsSpace(s[i])
    ensures r != [] ==> !IsSpace(r[0])
  {
    if s != [] && IsSpace(s[0]) then TrimStart(s[1..]) else s
  }

  /** `s` with its trailing whitespace removed. */
  function TrimEnd(s: string): (r: string)
    ensures |r| <= |s| && r == s[..|r|]
    ensures forall i :: |r| <= i < |s| ==> IsSpace(s[i])
    ensures r != [] ==> !IsSpace(r[|r| - 1])
  {
    if s != [] && IsSpace(s[|s| - 1]) then TrimEnd(s[..|s| - 1]) else s
  }

  /** Python's `s.strip()` with no argument: the result is empty (falsy) exactly
      when `s` is all whitespace, and otherwise starts and ends with a
      non-whitespace character of `s`. */
  function Strip(s: string): (r: string)
    ensures |r| <= |s|
    ensures r == [] <==> AllSpace(s)
    ensures r != [] ==> !IsSpace(r[0]) && !IsSpace(r[|r| - 1])
  {
    var t := TrimStart(s);
    var r := TrimEnd(t);
    TrimmedFacts(s, t, r);
    r
  }

  /** `s.strip()` is the slice `s[i..j]` whenever only whitespace precedes
      and follows the slice and the slice is empty or starts and ends with a
      non-whitespace character: an independent description of the result. */
  lemma StripIsSlice(s: string, i: nat, j: nat)
    requires i <= j <= |s|
    requires forall m :: 0 <= m < i ==> IsSpace(s[m])
    requires forall m :: j <= m < |s| ==> IsSpace(s[m])
    requires i < j ==> !IsSpace(s[i]) && !IsSpace(s[j - 1])
    ensures Strip(s) == s[i..j]
  {
    if i == j {
      assert AllSpace(s) by {
        forall m | 0 <= m < |s|
          ensures IsSpace(s[m])
        {
          if m >= j {} else {}
        }
      }
      assert s[i..j] == [];
    } else {
      NonEmptyStripIsSlice(s, i, j);
    }
  }

  /** StripIsSlice for a non-empty slice. */
  lemma NonEmptyStripIsSlice(s: string, i: nat, j: nat)
    requires i < j <= |s|
    requires forall m :: 0 <= m < i ==> IsSpace(s[m])
    requires forall m :: j <= m < |s| ==> IsSpace(s[m])
    requires !IsSpace(s[i]) && !IsSpace(s[j - 1])
    ensures Strip(s) == s[i..j]
  {
    var t := s[i..];
    assert TrimStart(s) == t by {
      TrimStartAt(s, i);
    }
    assert TrimEnd(t) == s[i..j] by {
      TrimEndOfSuffix(s, i, j);
    }
    assert Strip(s) == TrimEnd(TrimStart(s));
  }

  /** Trimming the end of the suffix `s[i..]` leaves `s[i..j]` when only
      whitespace follows position `j` and `s[j - 1]` is not whitespace. */
  lemma TrimEndOfSuffix(s: string, i: nat, j: nat)
    requires i < j <= |s|
    requires forall m :: j <= m < |s| ==> IsSpace(s[m])
    requires !IsSpace(s[j - 1])
    ensures TrimEnd(s[i..]) == s[i..j]
  {
    var t := s[i..];
    forall m | j - i <= m < |t|
      ensures IsSpace(t[m])
    {
      assert t[m] == s[i + m];
    }
    assert t[j - i - 1] == s[j - 1];
    TrimEndAt(t, j - i);
    assert t[..j - i] == s[i..j];
  }

  /** Trimming the start of `s` removes exactly its leading whitespace. */
  lemma TrimStartAt(s: string, i: nat)
    requires i <= |s|
    requires forall m :: 0 <= m < i ==> IsSpace(s[m])
    requires i < |s| ==> !IsSpace(s[i])
    ensures TrimStart(s) == s[i..]
  {
    var r := TrimStart(s);
    assert |s| - |r| == i;
  }

  /** Trimming the end of `t` removes exactly its trailing whitespace. */
  lemma TrimEndAt(t: string, j: nat)
    requires j <= |t|
    requires forall m :: j <= m < |t| ==> IsSpace(t[m])
    requires 0 < j ==> !IsSpace(t[j - 1])
    ensures TrimEnd(t) == t[..j]
  {
    var r := TrimEnd(t);
    assert |r| == j;
  }

  /** What trimming the start and then the end of `s` leaves, stated on the
      trimmed texts alone: `t` is `s` less leading whitespace, `r` is `t` less
      trailing whitespace. */
  lemma TrimmedFacts(s: string, t: string, r: string)
    requires |t| <= |s| && t == s[|s| - |t|..]
    requires forall i :: 0 <= i < |s| - |t| ==> IsSpace(s[i])
    requires t != [] ==> !IsSpace(t[0])
    requires |r| <= |t| && r == t[..|r|]
    requires forall i :: |r| <= i < |t| ==> IsSpace(t[i])
    ensures r == [] <==> AllSpace(s)
    ensures r != [] ==> !IsSpace(r[0])
  {
    var k := |s| - |t|;
    if r == [] {
      assert t == [];
    } else {
      assert r[0] == t[0];
      assert !IsSpace(s[k]);
    }
  }

  /** Python's `str.lower` on one character, for the ASCII letters; every other
      character is left as it is. */
  function LowerChar(c: char): (r: char)
    ensures 'A' <= c <= 'Z' ==> r as int == c as int + 32
    ensures !('A' <= c <= 'Z') ==> r == c
    ensures !('A' <= r <= 'Z')
    ensures 'a' <= r <= 'z' <==> 'a' <= c <= 'z' || 'A' <= c <= 'Z'
    ensures r == '.' <==> c == '.'
  {
    if 'A' <= c <= 'Z' then (c as int + 32) as char else c
  }

  /** `s.lower()`, character by character. */
  function Lower(s: string): (r: string)
    ensures |r| == |s|
    ensures forall i :: 0 <= i < |s| ==> r[i] == LowerChar(s[i])
  {
    seq(|s|, i requires 0 <= i < |s| => LowerChar(s[i]))
  }

  /** `s.endswith(suffix)`. */
  predicate EndsWith(s: string, suffix: string)
  {
    |suffix| <= |s| && s[|s| - |suffix|..] == suffix
  }

  /** `s.endswith(suffix)` holds exactly when `s` is some text followed by
      `suffix`. */
  lemma EndsWithConcat(s: string, suffix: string)
    ensures EndsWith(s, suffix) <==> |suffix| <= |s| && s == s[..|s| - |suffix|] + suffix
  {
    if |suffix| <= |s| && s == s[..|s| - |suffix|] + suffix {
      assert s[|s| - |suffix|..] == suffix;
    }
  }

  /** The text after the last '.' of `s`: `s.rsplit('.', 1)[1]`, which Python
      only evaluates when `s` holds a '.'. */
  function AfterLastDot(s: string): (r: string)
    requires '.' in s
    ensures |r| < |s| && s[|s| - |r| - 1] == '.'
    ensures r == s[|s| - |r|..]
    ensures '.' !in r
  {
    if s[|s| - 1] == '.' then [] else AfterLastDot(s[..|s| - 1]) + [s[|s| - 1]]
  }

  /** `rsplit('.', 1)` splits at the LAST dot: whatever precedes it, the text
      after a dot that is followed by no other dot is what AfterLastDot returns. */
  lemma {:induction false} AfterLastDotOfSplit(prefix: string, ext: string)
    requires '.' !in ext
    ensures '.' in prefix + ['.'] + ext
    ensures AfterLastDot(prefix + ['.'] + ext) == ext
  {
    var s := prefix + ['.'] + ext;
    assert s[|prefix|] == '.';
  }
}
