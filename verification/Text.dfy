/**
 The normalisation of identifiers: Go's TrimSpace, which knows every white
 space character of Unicode, and ToLower on ASCII letters. Each char stands
 for one byte of UTF-8.
 */
module Text {
  import opened Sequences

  /** The encodings of U+1680, U+2000 to U+200A, U+2028, U+2029, U+202F, U+205F and U+3000. */
  predicate IsWideSpace(a: int, b: int, c: int) {
    || (a == 0xE1 && b == 0x9A && c == 0x80)
    || (a == 0xE2 && b == 0x80 && (0x80 <= c <= 0x8A || c == 0xA8 || c == 0xA9 || c == 0xAF))
    || (a == 0xE2 && b == 0x81 && c == 0x9F)
    || (a == 0xE3 && b == 0x80 && c == 0x80)
  }

  /** The length of the white space character a text starts with, or 0. */
  function SpaceAt(s: string): (n: nat)
    ensures n <= |s|
  {
    if |s| >= 1 && (s[0] == ' ' || 9 <= s[0] as int <= 13) then 1
    else if |s| >= 2 && s[0] as int == 0xC2 && (s[1] as int == 0x85 || s[1] as int == 0xA0) then 2
    else if |s| >= 3 && IsWideSpace(s[0] as int, s[1] as int, s[2] as int) then 3
    else 0
  }

  /** The least width from k to 3 of a white space character the text ends with, or 0. */
  function SpaceEnding(s: string, k: nat): (n: nat)
    ensures n <= |s|
    decreases 4 - k
  {
    if k > 3 || k > |s| then 0
    else if SpaceAt(s[|s| - k..]) == k then k
    else SpaceEnding(s, k + 1)
  }

  /** The length of the white space character a text ends with, or 0. */
  function SpaceBefore(s: string): (n: nat)
    ensures n <= |s|
  {
    SpaceEnding(s, 1)
  }

  function TrimLeft(s: string): string
    decreases |s|
  {
    if SpaceAt(s) > 0 then TrimLeft(s[SpaceAt(s)..]) else s
  }

  function TrimRight(s: string): string
    decreases |s|
  {
    if SpaceBefore(s) > 0 then TrimRight(s[..|s| - SpaceBefore(s)]) else s
  }

  function TrimSpace(s: string): string {
    TrimRight(TrimLeft(s))
  }

  function LowerChar(c: char): char {
    if 'A' <= c <= 'Z' then (c as int + 32) as char else c
  }

  function ToLower(s: string): (t: string)
    ensures |t| == |s| && forall i :: 0 <= i < |s| ==> t[i] == LowerChar(s[i])
  {
    if s == "" then "" else [LowerChar(s[0])] + ToLower(s[1..])
  }

  /** The form in which classes and scope references are stored and looked up. */
  function Normal(s: string): string {
    ToLower(TrimSpace(s))
  }

  predicate Trimmed(s: string) {
    SpaceAt(s) == 0 && SpaceBefore(s) == 0
  }

  /** What starts with no white space has no prefix that does. */
  lemma PrefixStart(t: string, s: string)
    requires t <= s && SpaceAt(s) == 0
    ensures SpaceAt(t) == 0
  {
  }

  lemma {:induction false} TrimLeftTrims(s: string)
    ensures SpaceAt(TrimLeft(s)) == 0
    decreases |s|
  {
    if SpaceAt(s) > 0 {
      TrimLeftTrims(s[SpaceAt(s)..]);
    }
  }

  lemma {:induction false} TrimRightTrims(s: string)
    ensures TrimRight(s) <= s && SpaceBefore(TrimRight(s)) == 0
    decreases |s|
  {
    hide SpaceBefore;
    if SpaceBefore(s) > 0 {
      TrimRightTrims(s[..|s| - SpaceBefore(s)]);
    }
  }

  /** Trimming leaves trimmed text, and trimmed text as it is. */
  lemma TrimSpaceTrims(s: string)
    ensures Trimmed(TrimSpace(s))
    ensures Trimmed(s) ==> TrimSpace(s) == s
  {
    hide SpaceAt, SpaceBefore;
    TrimLeftTrims(s);
    TrimRightTrims(TrimLeft(s));
    PrefixStart(TrimSpace(s), TrimLeft(s));
  }

  /** Text between two visible ASCII characters is trimmed. */
  lemma VisibleEnds(s: string)
    requires s != "" && ' ' < s[0] <= '~' && ' ' < s[|s| - 1] <= '~'
    ensures Trimmed(s)
  {
  }

  /** Letters become no white space and white space becomes no letter. */
  lemma LowerSpaces(s: string)
    ensures SpaceAt(ToLower(s)) == SpaceAt(s) && SpaceBefore(ToLower(s)) == SpaceBefore(s)
  {
    hide SpaceAt;
    LowerStart(s, ToLower(s));
    LowerEnd(s, ToLower(s), 1);
  }

  lemma {:induction false} LowerEnd(s: string, t: string, k: nat)
    requires |s| == |t| && forall i :: 0 <= i < |s| ==> t[i] == LowerChar(s[i])
    ensures SpaceEnding(t, k) == SpaceEnding(s, k)
    decreases 4 - k
  {
    hide SpaceAt;
    if k <= 3 && k <= |s| {
      LowerStart(s[|s| - k..], t[|t| - k..]);
      LowerEnd(s, t, k + 1);
    }
  }

  lemma LowerStart(s: string, t: string)
    requires |s| == |t| && forall i :: 0 <= i < |s| ==> t[i] == LowerChar(s[i])
    ensures SpaceAt(t) == SpaceAt(s)
  {
  }

  /** Looking up a normal form looks up what was stored. */
  lemma NormalIsIdempotent(s: string)
    ensures Normal(Normal(s)) == Normal(s)
  {
    hide TrimSpace, SpaceAt, SpaceBefore;
    var t := TrimSpace(s);
    TrimSpaceTrims(s);
    LowerSpaces(t);
    TrimSpaceTrims(ToLower(t));
    assert ToLower(ToLower(t)) == ToLower(t);
  }

  // ---------- White space, by its code points ----------

  /** The characters with the Unicode property White_Space. */
  predicate IsSpaceRune(r: int) {
    || 0x09 <= r <= 0x0D || r == 0x20 || r == 0x85 || r == 0xA0 || r == 0x1680 || 0x2000 <= r <= 0x200A
    || r == 0x2028 || r == 0x2029 || r == 0x202F || r == 0x205F || r == 0x3000
  }

  /** The UTF-8 encoding of a character of the basic plane, by section 3 of RFC 3629. */
  function Encode(r: int): string
    requires IsSpaceRune(r)
  {
    if r < 0x80 then [r as char]
    else if r < 0x800 then [(0xC0 + r / 64) as char, (0x80 + r % 64) as char]
    else [(0xE0 + r / 4096) as char, (0x80 + r / 64 % 64) as char, (0x80 + r % 64) as char]
  }

  /** The code point that three bytes encode. */
  function Decoded(s: string): int
    requires SpaceAt(s) > 0
  {
    if SpaceAt(s) == 1 then s[0] as int
    else if SpaceAt(s) == 2 then (s[0] as int - 0xC0) * 64 + (s[1] as int - 0x80)
    else (s[0] as int - 0xE0) * 4096 + (s[1] as int - 0x80) * 64 + (s[2] as int - 0x80)
  }

  lemma SpaceRune(s: string) returns (r: int)
    requires SpaceAt(s) > 0
    ensures IsSpaceRune(r) && Encode(r) == s[..SpaceAt(s)]
  {
    r := Decoded(s);
    var n := SpaceAt(s);
    if n == 1 {
      assert s[..1] == [s[0]];
    } else if n == 2 {
      assert s[..2] == [s[0], s[1]];
    } else {
      assert s[..3] == [s[0], s[1], s[2]];
      WideRune(s[0] as int, s[1] as int, s[2] as int);
    }
  }

  lemma WideRune(a: int, b: int, c: int)
    requires IsWideSpace(a, b, c)
    ensures
      var r := (a - 0xE0) * 4096 + (b - 0x80) * 64 + (c - 0x80);
      && IsSpaceRune(r) && r >= 0x800 && 0xE0 + r / 4096 == a && 0x80 + r / 64 % 64 == b && 0x80 + r % 64 == c
  {
  }

  lemma RuneSpace(s: string, r: int)
    requires IsSpaceRune(r) && Encode(r) <= s
    ensures SpaceAt(s) == |Encode(r)|
  {
    var e := Encode(r);
    assert forall i :: 0 <= i < |e| ==> s[i] == e[i];
    if r >= 0x800 {
      RuneBytes(r);
    }
  }

  lemma RuneBytes(r: int)
    requires IsSpaceRune(r) && r >= 0x800
    ensures IsWideSpace(0xE0 + r / 4096, 0x80 + r / 64 % 64, 0x80 + r % 64)
  {
  }

  /** Text is trimmed exactly when it neither starts nor ends with a white space character. */
  lemma TrimmedMeans(s: string)
    ensures Trimmed(s) <==>
      forall r :: IsSpaceRune(r) ==>
        !(Encode(r) <= s) && !(|Encode(r)| <= |s| && s[|s| - |Encode(r)|..] == Encode(r))
  {
    hide SpaceAt, Encode, IsSpaceRune;
    if SpaceAt(s) > 0 {
      var r := SpaceRune(s);
      assert Encode(r) <= s;
    }
    if SpaceBefore(s) > 0 {
      SpaceEnds(s, 1);
      var n := SpaceBefore(s);
      var r := SpaceRune(s[|s| - n..]);
      assert s[|s| - n..][..n] == s[|s| - n..];
    }
    forall r | IsSpaceRune(r)
      ensures Encode(r) <= s ==> SpaceAt(s) > 0
      ensures |Encode(r)| <= |s| && s[|s| - |Encode(r)|..] == Encode(r) ==> SpaceBefore(s) > 0
    {
      EncodeWidth(r);
      if Encode(r) <= s {
        RuneSpace(s, r);
      }
      if |Encode(r)| <= |s| && s[|s| - |Encode(r)|..] == Encode(r) {
        RuneSpace(s[|s| - |Encode(r)|..], r);
        SpaceNotMissed(s, 1, |Encode(r)|);
      }
    }
  }

  lemma EncodeWidth(r: int)
    requires IsSpaceRune(r)
    ensures 1 <= |Encode(r)| <= 3
  {
  }

  lemma {:induction false} SpaceEnds(s: string, k: nat)
    ensures var n := SpaceEnding(s, k); n > 0 ==> SpaceAt(s[|s| - n..]) == n
    decreases 4 - k
  {
    if k <= 3 && k <= |s| {
      SpaceEnds(s, k + 1);
    }
  }

  lemma {:induction false} SpaceNotMissed(s: string, k: nat, n: nat)
    requires 1 <= k <= n <= 3 && n <= |s| && SpaceAt(s[|s| - n..]) == n
    ensures SpaceEnding(s, k) > 0
    decreases 4 - k
  {
    hide SpaceAt;
    if k < n {
      SpaceNotMissed(s, k + 1, n);
    }
  }

  /** White space characters, one after the other. */
  function Spaces(runes: seq<int>): string
    requires forall r :: r in runes ==> IsSpaceRune(r)
  {
    if runes == [] then "" else Encode(runes[0]) + Spaces(runes[1..])
  }

  lemma {:induction false} SpacesSnoc(runes: seq<int>, r: int)
    requires (forall x :: x in runes ==> IsSpaceRune(x)) && IsSpaceRune(r)
    ensures forall x :: x in runes + [r] ==> IsSpaceRune(x)
    ensures Spaces(runes + [r]) == Spaces(runes) + Encode(r)
  {
    hide IsSpaceRune, Encode;
    if runes == [] {
      assert runes + [r] == [r] && [r][1..] == [];
      assert Spaces([r]) == Encode(r) + "";
    } else {
      assert (runes + [r])[1..] == runes[1..] + [r];
      SpacesSnoc(runes[1..], r);
      Regroup(Encode(runes[0]), Spaces(runes[1..]), Encode(r));
    }
  }

  lemma {:induction false} TrimLeftKeeps(s: string) returns (a: seq<int>)
    ensures forall r :: r in a ==> IsSpaceRune(r)
    ensures s == Spaces(a) + TrimLeft(s)
    decreases |s|
  {
    hide SpaceAt, IsSpaceRune, Encode;
    a := [];
    if SpaceAt(s) > 0 {
      var n := SpaceAt(s);
      var r := SpaceRune(s);
      var rest := TrimLeftKeeps(s[n..]);
      a := [r] + rest;
      assert a[1..] == rest;
      assert s == s[..n] + s[n..];
      Regroup(Encode(r), Spaces(rest), TrimLeft(s));
    }
  }

  lemma {:induction false} TrimRightKeeps(s: string) returns (b: seq<int>)
    ensures forall r :: r in b ==> IsSpaceRune(r)
    ensures s == TrimRight(s) + Spaces(b)
    decreases |s|
  {
    hide SpaceAt, SpaceEnding, IsSpaceRune, Encode;
    b := [];
    if SpaceBefore(s) > 0 {
      var n := SpaceBefore(s);
      SpaceEnds(s, 1);
      var r := SpaceRune(s[|s| - n..]);
      var rest := TrimRightKeeps(s[..|s| - n]);
      b := rest + [r];
      SpacesSnoc(rest, r);
      assert s[|s| - n..][..n] == s[|s| - n..];
      assert s == s[..|s| - n] + s[|s| - n..];
      Regroup(TrimRight(s), Spaces(rest), Encode(r));
    }
  }

  /** Trimming takes away white space characters at both ends and keeps everything between them. */
  lemma TrimSpaceKeeps(s: string) returns (a: seq<int>, b: seq<int>)
    ensures forall r :: r in a + b ==> IsSpaceRune(r)
    ensures s == Spaces(a) + TrimSpace(s) + Spaces(b)
  {
    hide IsSpaceRune;
    a := TrimLeftKeeps(s);
    b := TrimRightKeeps(TrimLeft(s));
    Regroup(Spaces(a), TrimSpace(s), Spaces(b));
  }

  lemma SpaceStart(r: int, u: string)
    requires IsSpaceRune(r)
    ensures SpaceAt(Encode(r) + u) == |Encode(r)| && (Encode(r) + u)[|Encode(r)|..] == u
  {
    hide SpaceAt, IsSpaceRune, Encode;
    RuneSpace(Encode(r) + u, r);
  }

  /** No shorter character ends where a white space character ends. */
  lemma SpaceEnd(u: string, r: int)
    requires IsSpaceRune(r)
    ensures SpaceBefore(u + Encode(r)) == |Encode(r)|
    ensures (u + Encode(r))[..|u|] == u
  {
    var e, s := Encode(r), u + Encode(r);
    EncodeWidth(r);
    EncodeTails(r);
    hide SpaceAt, IsSpaceRune, Encode;
    assert s[|s| - |e|..] == e;
    if |e| > 1 {
      assert s[|s| - 1..] == e[|e| - 1..];
    }
    if |e| > 2 {
      assert s[|s| - 2..] == e[|e| - 2..];
    }
    assert SpaceEnding(s, |e|) == |e|;
    if |e| > 1 {
      assert SpaceEnding(s, |e| - 1) == |e|;
    }
  }

  lemma EncodeTails(r: int)
    requires IsSpaceRune(r)
    ensures var e := Encode(r); SpaceAt(e) == |e|
    ensures var e := Encode(r); |e| > 1 ==> SpaceAt(e[|e| - 1..]) == 0
    ensures var e := Encode(r); |e| > 2 ==> SpaceAt(e[|e| - 2..]) == 0
  {
    RuneSpace(Encode(r), r);
  }

  lemma {:induction false} TrimLeftSkips(a: seq<int>, u: string)
    requires forall r :: r in a ==> IsSpaceRune(r)
    ensures TrimLeft(Spaces(a) + u) == TrimLeft(u)
  {
    hide SpaceAt, IsSpaceRune, Encode;
    if a == [] {
      assert Spaces(a) + u == u;
    } else {
      EncodeWidth(a[0]);
      Regroup(Encode(a[0]), Spaces(a[1..]), u);
      SpaceStart(a[0], Spaces(a[1..]) + u);
      TrimLeftSkips(a[1..], u);
    }
  }

  lemma {:induction false} TrimRightSkips(u: string, b: seq<int>)
    requires forall r :: r in b ==> IsSpaceRune(r)
    ensures TrimRight(u + Spaces(b)) == TrimRight(u)
  {
    hide SpaceAt, SpaceBefore, IsSpaceRune, Encode;
    if b == [] {
      assert u + Spaces(b) == u;
    } else {
      var n := |b| - 1;
      assert b == b[..n] + [b[n]];
      SpacesSnoc(b[..n], b[n]);
      Regroup(u, Spaces(b[..n]), Encode(b[n]));
      EncodeWidth(b[n]);
      SpaceEnd(u + Spaces(b[..n]), b[n]);
      TrimRightSkips(u, b[..n]);
    }
  }

  /** White space behind a text does not make it start with white space. */
  lemma StartStays(t: string, b: seq<int>)
    requires t != "" && SpaceAt(t) == 0 && forall r :: r in b ==> IsSpaceRune(r)
    ensures SpaceAt(t + Spaces(b)) == 0
  {
    if b != [] {
      var e := Encode(b[0]);
      assert IsSpaceRune(b[0]);
      assert Spaces(b)[0] == e[0];
    }
  }

  /** TrimSpace gives the one trimmed text that is left between white space characters. */
  lemma TrimSpaceMeans(s: string, t: string)
    ensures t == TrimSpace(s) <==>
      Trimmed(t) && exists a: seq<int>, b: seq<int> ::
        (forall r :: r in a + b ==> IsSpaceRune(r)) && s == Spaces(a) + t + Spaces(b)
  {
    hide SpaceAt, SpaceBefore, IsSpaceRune, Encode, TrimLeft, TrimRight;
    if t == TrimSpace(s) {
      TrimSpaceTrims(s);
      var a, b := TrimSpaceKeeps(s);
    } else if Trimmed(t) {
      forall a: seq<int>, b: seq<int> | (forall r :: r in a + b ==> IsSpaceRune(r)) && s == Spaces(a) + t + Spaces(b)
        ensures false
      {
        OnlyTrimmed(a, t, b);
        assert false;
      }
    }
  }

  lemma OnlyTrimmed(a: seq<int>, t: string, b: seq<int>)
    requires Trimmed(t) && forall r :: r in a + b ==> IsSpaceRune(r)
    ensures TrimSpace(Spaces(a) + t + Spaces(b)) == t
  {
    hide SpaceAt, SpaceBefore, IsSpaceRune, Encode;
    assert forall r :: r in a ==> r in a + b;
    assert forall r :: r in b ==> r in a + b;
    Regroup(Spaces(a), t, Spaces(b));
    TrimLeftSkips(a, t + Spaces(b));
    if t == "" {
      assert t + Spaces(b) == Spaces(b) + "";
      TrimLeftSkips(b, "");
    } else {
      StartStays(t, b);
      TrimRightSkips(t, b);
    }
  }

  // ---------- Case ----------

  /** The twenty-six letters lose their case and keep their place; nothing else changes. */
  lemma LowerLetters(c: char, i: nat)
    requires i < 26
    ensures LowerChar("ABCDEFGHIJKLMNOPQRSTUVWXYZ"[i]) == "abcdefghijklmnopqrstuvwxyz"[i]
    ensures !('A' <= c <= 'Z') ==> LowerChar(c) == c
  {
  }

  /** Two characters become alike only if they are the same up to case. */
  lemma LowerKeepsApart(c: char, d: char)
    ensures LowerChar(c) == LowerChar(d) <==>
      || c == d
      || ('A' <= c <= 'Z' && d as int == c as int + 32)
      || ('A' <= d <= 'Z' && c as int == d as int + 32)
  {
  }
}
