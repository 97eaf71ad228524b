/**
 The volume names that `befs_dump` can decode are exactly the encodings of Unicode text (section 3 of
 RFC 3629).
 */
module Utf8Text {
  import opened Bytes
  import opened DumpVolume

  /** A code point that is not a surrogate. */
  predicate Scalar(c: nat)
  {
    c < 0xD800 || 0xE000 <= c < 0x11_0000
  }

  function ScalarBytes(c: nat): (r: bytes)
    requires Scalar(c)
    ensures |r| >= 1
  {
    if c < 0x80 then [c]
    else if c < 0x800 then [0xC0 + c / 64, 0x80 + c % 64]
    else if c < 0x1_0000 then [0xE0 + c / 4096, 0x80 + c / 64 % 64, 0x80 + c % 64]
    else [0xF0 + c / 0x4_0000, 0x80 + c / 4096 % 64, 0x80 + c / 64 % 64, 0x80 + c % 64]
  }

  ghost predicate Text(cs: seq<nat>)
  {
    forall i :: 0 <= i < |cs| ==> Scalar(cs[i])
  }

  function TextBytes(cs: seq<nat>): bytes
    requires Text(cs)
  {
    if cs == [] then [] else ScalarBytes(cs[0]) + TextBytes(cs[1..])
  }

  lemma ThreeDigits(c: nat)
    requires 0x800 <= c < 0x1_0000 && Scalar(c)
    ensures var x, y := c / 4096, c / 64 % 64; x <= 15 && (x == 0 ==> y >= 0x20) && (x == 13 ==> y < 0x20)
  {
  }

  lemma FourDigits(c: nat)
    requires 0x1_0000 <= c < 0x11_0000
    ensures var x, y := c / 0x4_0000, c / 4096 % 64; x <= 4 && (x == 0 ==> y >= 0x10) && (x == 4 ==> y < 0x10)
  {
  }

  lemma ThreeStep(s: bytes, x: nat, y: nat, z: nat)
    requires |s| >= 3 && x <= 15 && y < 64 && z < 64 && (x == 0 ==> y >= 0x20) && (x == 13 ==> y < 0x20)
    requires s[0] == 0xE0 + x && s[1] == 0x80 + y && s[2] == 0x80 + z
    ensures Utf8Step(s) == 3
  {
  }

  lemma FourStep(s: bytes, x: nat, y: nat, z: nat, w: nat)
    requires |s| >= 4 && x <= 4 && y < 64 && z < 64 && w < 64 && (x == 0 ==> y >= 0x10) && (x == 4 ==> y < 0x10)
    requires s[0] == 0xF0 + x && s[1] == 0x80 + y && s[2] == 0x80 + z && s[3] == 0x80 + w
    ensures Utf8Step(s) == 4
  {
  }

  lemma ShortStep(c: nat, rest: bytes)
    requires c < 0x800
    ensures Utf8Step(ScalarBytes(c) + rest) == |ScalarBytes(c)|
  {
    var s := ScalarBytes(c) + rest;
    if c >= 0x80 {
      assert s[0] == 0xC0 + c / 64 && s[1] == 0x80 + c % 64;
    }
  }

  /** One encoded code point is one step of the decoder. */
  lemma StepOver(c: nat, rest: bytes)
    requires Scalar(c)
    ensures Utf8Step(ScalarBytes(c) + rest) == |ScalarBytes(c)|
  {
    hide Utf8Step;
    var s := ScalarBytes(c) + rest;
    if c < 0x800 {
      ShortStep(c, rest);
    } else if c < 0x1_0000 {
      ThreeDigits(c);
      ThreeStep(s, c / 4096, c / 64 % 64, c % 64);
    } else {
      FourDigits(c);
      FourStep(s, c / 0x4_0000, c / 4096 % 64, c / 64 % 64, c % 64);
    }
  }

  lemma ThreeBack(x: nat, y: nat, z: nat)
    requires x <= 15 && y < 64 && z < 64 && (x == 0 ==> y >= 0x20) && (x == 13 ==> y < 0x20)
    ensures var c := x * 4096 + y * 64 + z; Scalar(c) && ScalarBytes(c) == [0xE0 + x, 0x80 + y, 0x80 + z]
  {
    var c := x * 4096 + y * 64 + z;
    assert c / 64 == x * 64 + y && c / 4096 == x;
  }

  lemma FourBack(x: nat, y: nat, z: nat, w: nat)
    requires x <= 4 && y < 64 && z < 64 && w < 64 && (x == 0 ==> y >= 0x10) && (x == 4 ==> y < 0x10)
    ensures var c := x * 0x4_0000 + y * 4096 + z * 64 + w;
            Scalar(c) && ScalarBytes(c) == [0xF0 + x, 0x80 + y, 0x80 + z, 0x80 + w]
  {
    var c := x * 0x4_0000 + y * 4096 + z * 64 + w;
    assert c / 64 == x * 4096 + y * 64 + z && c / 4096 == x * 64 + y && c / 0x4_0000 == x;
  }

  /** What a step over two, three or four bytes has seen. */
  lemma StepSeen(s: bytes)
    requires s != [] && Utf8Step(s) > 0
    ensures var n := Utf8Step(s);
            && 1 <= n <= 4 && (n == 1 ==> s[0] < 0x80)
            && (n == 2 ==> 0xC2 <= s[0] <= 0xDF && Tail(s, 1))
            && (n == 3 ==> 0xE0 <= s[0] <= 0xEF && Tail(s, 1) && Tail(s, 2) && (s[0] == 0xE0 ==> s[1] >= 0xA0) && (s[0] == 0xED ==> s[1] < 0xA0))
            && (n == 4 ==> 0xF0 <= s[0] <= 0xF4 && Tail(s, 1) && Tail(s, 2) && Tail(s, 3)
                           && (s[0] == 0xF0 ==> s[1] >= 0x90) && (s[0] == 0xF4 ==> s[1] < 0x90))
  {
  }

  /** One step of the decoder is over one encoded code point. */
  lemma StepScalar(s: bytes) returns (c: nat)
    requires s != [] && Utf8Step(s) > 0
    ensures Scalar(c) && ScalarBytes(c) == s[..Utf8Step(s)]
  {
    hide Utf8Step;
    StepSeen(s);
    var n := Utf8Step(s);
    if n == 1 {
      c := s[0];
    } else if n == 2 {
      var x: nat, y: nat := s[0] - 0xC0, s[1] - 0x80;
      c := x * 64 + y;
      assert s[..2] == [s[0], s[1]] && c / 64 == x;
    } else if n == 3 {
      hide ScalarBytes;
      var x: nat, y: nat, z: nat := s[0] - 0xE0, s[1] - 0x80, s[2] - 0x80;
      ThreeBack(x, y, z);
      c := x * 4096 + y * 64 + z;
      assert s[..3] == [0xE0 + x, 0x80 + y, 0x80 + z];
    } else {
      hide ScalarBytes;
      var x: nat, y: nat, z: nat, w: nat := s[0] - 0xF0, s[1] - 0x80, s[2] - 0x80, s[3] - 0x80;
      FourBack(x, y, z, w);
      c := x * 0x4_0000 + y * 4096 + z * 64 + w;
      assert s[..4] == [0xF0 + x, 0x80 + y, 0x80 + z, 0x80 + w];
    }
  }

  lemma {:induction false} TextDecodes(cs: seq<nat>)
    requires Text(cs)
    ensures Utf8(TextBytes(cs))
    decreases |cs|
  {
    hide Utf8Step, ScalarBytes;
    if cs != [] {
      var e, rest := ScalarBytes(cs[0]), TextBytes(cs[1..]);
      TextDecodes(cs[1..]);
      StepOver(cs[0], rest);
      assert (e + rest)[|e|..] == rest;
    }
  }

  lemma {:induction false} DecodesAsText(s: bytes) returns (cs: seq<nat>)
    requires Utf8(s)
    ensures Text(cs) && TextBytes(cs) == s
    decreases |s|
  {
    hide Utf8Step, ScalarBytes;
    if s == [] {
      cs := [];
    } else {
      var n := Utf8Step(s);
      var c := StepScalar(s);
      var rest := DecodesAsText(s[n..]);
      cs := [c] + rest;
      assert cs[1..] == rest && s == s[..n] + s[n..];
    }
  }

  /** `decode()` succeeds exactly on the encoding of some text. */
  lemma DecodableIff(s: bytes)
    ensures Utf8(s) <==> exists cs :: Text(cs) && TextBytes(cs) == s
  {
    if Utf8(s) {
      var cs := DecodesAsText(s);
    }
    if cs :| Text(cs) && TextBytes(cs) == s {
      TextDecodes(cs);
    }
  }
}
