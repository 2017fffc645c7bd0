/**
 Cutting text on a character boundary: `clip`, over the UTF-8 encoding of
 sections 3 and 4 of RFC 3629. Each char stands for one byte.
 */
module Clip {
  import opened Wrappers

  predicate Between(c: char, lo: int, hi: int) {
    lo <= c as int <= hi
  }

  /** A byte of the form 10xxxxxx. */
  predicate Continues(c: char) {
    Between(c, 0x80, 0xBF)
  }

  /** Go's utf8.RuneStart: anything but a continuation byte. */
  predicate RuneStart(c: char) {
    !Continues(c)
  }

  /**
   The length of the character a byte sequence starts with, or 0 if it starts
   with none: the rows of the syntax in section 4 of RFC 3629.
   */
  function CharLength(s: string): (n: nat)
    ensures n <= 4 && n <= |s|
    ensures n > 0 ==> RuneStart(s[0]) && forall i :: 0 < i < n ==> Continues(s[i])
  {
    if |s| >= 1 && Between(s[0], 0x00, 0x7F) then 1
    else if |s| >= 2 && Between(s[0], 0xC2, 0xDF) && Continues(s[1]) then 2
    else if |s| >= 3 && Continues(s[2])
      && ((s[0] as int == 0xE0 && Between(s[1], 0xA0, 0xBF))
          || ((Between(s[0], 0xE1, 0xEC) || Between(s[0], 0xEE, 0xEF)) && Continues(s[1]))
          || (s[0] as int == 0xED && Between(s[1], 0x80, 0x9F))) then 3
    else if |s| >= 4 && Continues(s[2]) && Continues(s[3])
      && ((s[0] as int == 0xF0 && Between(s[1], 0x90, 0xBF))
          || (Between(s[0], 0xF1, 0xF3) && Continues(s[1]))
          || (s[0] as int == 0xF4 && Between(s[1], 0x80, 0x8F))) then 4
    else 0
  }

  predicate ValidUtf8(s: string)
    decreases |s|
  {
    s == "" || (CharLength(s) > 0 && ValidUtf8(s[CharLength(s)..]))
  }

  /** A character is read the same whatever comes after it. */
  lemma CharLengthPrefix(s: string, k: nat)
    requires k <= |s| && CharLength(s) > 0
    ensures CharLength(s) <= k ==> CharLength(s[..k]) == CharLength(s)
    ensures k < CharLength(s) ==> CharLength(s[..k]) == 0
  {
  }

  /** The prefixes of valid text that are valid are those that end before a character or at the end. */
  lemma {:induction false} ValidPrefix(s: string, k: nat)
    requires ValidUtf8(s) && k <= |s|
    ensures ValidUtf8(s[..k]) <==> k == |s| || RuneStart(s[k])
    decreases |s|
  {
    if k == |s| {
      assert s[..k] == s;
    } else if k > 0 {
      var n := CharLength(s);
      CharLengthPrefix(s, k);
      if n <= k {
        assert s[..k][n..] == s[n..][..k - n];
        ValidPrefix(s[n..], k - n);
        assert k < |s| ==> s[n..][k - n] == s[k];
      } else {
        assert Continues(s[k]);
        assert !ValidUtf8(s[..k]);
      }
    }
  }

  /** In valid text no four bytes in a row are all continuation bytes. */
  lemma {:induction false} BoundaryNear(s: string, k: nat)
    requires ValidUtf8(s) && 3 <= k < |s|
    ensures RuneStart(s[k]) || RuneStart(s[k - 1]) || RuneStart(s[k - 2]) || RuneStart(s[k - 3])
    decreases |s|
  {
    var n := CharLength(s);
    if k - 3 >= n {
      BoundaryNear(s[n..], k - n);
    } else if n <= k {
      assert RuneStart(s[n]) by {
        assert CharLength(s[n..]) > 0;
        assert s[n..][0] == s[n];
      }
    }
  }

  /** What `clip` yields: the cut is the last boundary at or below n. */
  ghost predicate IsClip(s: string, n: nat, t: string, clipped: bool) {
    if |s| <= n then t == s && !clipped
    else
      && clipped && |t| <= n && t == s[..|t|]
      && (|t| == 0 || RuneStart(s[|t|]))
      && (forall k :: |t| < k <= n ==> Continues(s[k]))
  }

  function CutAt(s: string, n: nat): (k: nat)
    requires n < |s|
    ensures k <= n && (k == 0 || RuneStart(s[k]))
    ensures forall j :: k < j <= n ==> Continues(s[j])
  {
    if n > 0 && !RuneStart(s[n]) then CutAt(s, n - 1) else n
  }

  function Clipped(s: string, n: nat): (t: string) {
    if |s| <= n then s else s[..CutAt(s, n)]
  }

  method Cut(s: string, limit: nat) returns (t: string, clipped: bool)
    ensures t == Clipped(s, limit) && (clipped <==> |s| > limit)
    ensures IsClip(s, limit, t, clipped)
  {
    if |s| <= limit {
      return s, false;
    }
    var n := limit;
    while n > 0 && !RuneStart(s[n])
      invariant 0 <= n <= limit
      invariant CutAt(s, n) == CutAt(s, limit)
      invariant forall k :: n < k <= limit ==> Continues(s[k])
    {
      n := n - 1;
    }
    return s[..n], true;
  }

  /**
   On valid text the result is valid and is the longest valid prefix that fits;
   at most three bytes below n are given up. Text is flagged exactly when it
   changed, and clipping the result again changes nothing.
   */
  lemma ClipIsLongestValid(s: string, n: nat)
    ensures Clipped(Clipped(s, n), n) == Clipped(s, n)
    ensures |s| > n <==> Clipped(s, n) != s
    ensures ValidUtf8(s) ==>
      && ValidUtf8(Clipped(s, n))
      && (forall k :: 0 <= k <= |s| && k <= n && ValidUtf8(s[..k]) ==> k <= |Clipped(s, n)|)
      && (|s| > n ==> n - 3 <= |Clipped(s, n)| <= n)
  {
    if |s| > n {
      var cut := CutAt(s, n);
      if ValidUtf8(s) {
        ValidPrefix(s, cut);
        forall k | 0 <= k <= n && ValidUtf8(s[..k])
          ensures k <= cut
        {
          ValidPrefix(s, k);
        }
        if n >= 3 {
          BoundaryNear(s, n);
        }
      }
    }
  }
}
