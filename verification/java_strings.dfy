/** The two `java.lang` string operations the core relies on: `String.trim`
    and the decimal rendering of an `int` in string concatenation. */
module JavaStrings {

  /** `String.trim` removes every character whose code is at most U+0020. */
  predicate IsTrimmable(c: char)
  {
    c <= ' '
  }

  predicate AllTrimmable(s: string)
  {
    forall i :: 0 <= i < |s| ==> IsTrimmable(s[i])
  }

  /** A string `trim` leaves unchanged: empty, or bounded by kept characters. */
  predicate IsTrimmed(s: string)
  {
    s == [] || (!IsTrimmable(s[0]) && !IsTrimmable(s[|s| - 1]))
  }

  /** The first loop of `trim`: drop leading trimmable characters. */
  function TrimStart(s: string): (r: string)
    ensures |r| <= |s| && r == s[|s| - |r|..]
    ensures AllTrimmable(s[..|s| - |r|])
    ensures r != [] ==> !IsTrimmable(r[0])
  {
    if s != [] && IsTrimmable(s[0]) then TrimStart(s[1..]) else s
  }

  /** The second loop of `trim`: drop trailing trimmable characters. */
  function TrimEnd(s: string): (r: string)
    ensures |r| <= |s| && r == s[..|r|]
    ensures AllTrimmable(s[|r|..])
    ensures r != [] ==> !IsTrimmable(r[|r| - 1])
  {
    if s != [] && IsTrimmable(s[|s| - 1]) then TrimEnd(s[..|s| - 1]) else s
  }

  /** `String.trim`: the longest infix bounded by kept characters; empty
      exactly when every character is trimmable. */
  function Trim(s: string): (r: string)
    ensures IsTrimmed(r)
  {
    TrimEnd(TrimStart(s))
  }

  /** Leading padding is dropped by TrimStart. */
  lemma {:induction false} TrimStartPadding(w: string, t: string)
    requires AllTrimmable(w)
    requires t == [] || !IsTrimmable(t[0])
    ensures TrimStart(w + t) == t
    decreases |w|
  {
    if w != [] {
      assert (w + t)[1..] == w[1..] + t;
      TrimStartPadding(w[1..], t);
    }
  }

  /** Trailing padding is dropped by TrimEnd. */
  lemma {:induction false} TrimEndPadding(t: string, w: string)
    requires AllTrimmable(w)
    requires t == [] || !IsTrimmable(t[|t| - 1])
    ensures TrimEnd(t + w) == t
    decreases |w|
  {
    if w != [] {
      assert (t + w)[..|t + w| - 1] == t + w[..|w| - 1];
      TrimEndPadding(t, w[..|w| - 1]);
    }
  }

  /** The characterisation of `trim`: padding a trimmed string with
      trimmable characters on either side and trimming gives it back. */
  lemma PaddedTrim(w1: string, t: string, w2: string)
    requires AllTrimmable(w1) && AllTrimmable(w2) && IsTrimmed(t)
    ensures Trim(w1 + t + w2) == t
  {
    if t == [] {
      assert AllTrimmable(w1 + t + w2);
    } else {
      assert (w1 + t + w2) == w1 + (t + w2);
      TrimStartPadding(w1, t + w2);
      TrimEndPadding(t, w2);
    }
  }

  /** Trimming is idempotent. */
  lemma TrimIdempotent(s: string)
    ensures Trim(Trim(s)) == Trim(s)
  {
    PaddedTrim([], Trim(s), []);
    assert [] + Trim(s) + [] == Trim(s);
  }

  /** Trimmable characters stay trimmable when concatenated. */
  lemma AllTrimmableConcat(a: string, b: string)
    requires AllTrimmable(a) && AllTrimmable(b)
    ensures AllTrimmable(a + b)
  {
    forall i | 0 <= i < |a + b|
      ensures IsTrimmable((a + b)[i])
    {
      if i < |a| {
        assert (a + b)[i] == a[i];
      } else {
        assert (a + b)[i] == b[i - |a|];
      }
    }
  }

  lemma SplitAt(s: string, k: nat)
    requires k <= |s|
    ensures s == s[..k] + s[k..]
  {
  }

  lemma Associate(a: string, b: string, c: string)
    ensures a + (b + c) == a + b + c
  {
  }

  /** Every string is its trimmed form padded on both sides. */
  lemma TrimSplits(s: string) returns (lead: string, trail: string)
    ensures AllTrimmable(lead) && AllTrimmable(trail)
    ensures s == lead + Trim(s) + trail
  {
    var a := TrimStart(s);
    var b := TrimEnd(a);
    lead := s[..|s| - |a|];
    trail := a[|b|..];
    SplitAt(s, |s| - |a|);
    SplitAt(a, |b|);
    Associate(lead, b, trail);
  }

  lemma Regroup(a: string, b: string, c: string, d: string, e: string)
    ensures a + (b + c + d) + e == (a + b) + c + (d + e)
  {
  }

  /** Padding any string with trimmable characters does not change what
      `trim` returns. */
  lemma TrimIgnoresPadding(w1: string, s: string, w2: string)
    requires AllTrimmable(w1) && AllTrimmable(w2)
    ensures Trim(w1 + s + w2) == Trim(s)
  {
    var lead, trail := TrimSplits(s);
    var t := Trim(s);
    AllTrimmableConcat(w1, lead);
    AllTrimmableConcat(trail, w2);
    Regroup(w1, lead, t, trail, w2);
    PaddedTrim(w1 + lead, t, trail + w2);
  }

  /** `trim` yields the empty string exactly when every character of the
      input is trimmable. */
  lemma TrimEmptyIffBlank(s: string)
    ensures Trim(s) == [] <==> AllTrimmable(s)
  {
    var lead, trail := TrimSplits(s);
    var t := Trim(s);
    if t == [] {
      assert s == lead + trail;
      AllTrimmableConcat(lead, trail);
    } else {
      assert s[|lead|] == t[0];
    }
  }

  function DigitChar(d: nat): (c: char)
    requires d < 10
    ensures '0' <= c <= '9'
  {
    "0123456789"[d]
  }

  /** The decimal digits of a natural number, as `""+n` writes them. */
  function NatToString(n: nat): (r: string)
    ensures r != []
    ensures forall i :: 0 <= i < |r| ==> '0' <= r[i] <= '9'
    ensures n < 10 <==> |r| == 1
    decreases n
  {
    if n < 10 then [DigitChar(n)] else NatToString(n / 10) + [DigitChar(n % 10)]
  }
}
