/**
 The dotted-decimal parser and printer of `userspace/gnat-rts/gnat_user/aegir_gsocket.c`. A C
 string is the sequence of its characters; whatever is read past the end is the final NUL.
 */
module DottedQuad {
  import opened Bytes

  function CharAt(s: string, i: nat): char
  {
    if i < |s| then s[i] else '\0'
  }

  predicate IsDigit(c: char)
  {
    '0' <= c <= '9'
  }

  function Digit(c: char): nat
    requires IsDigit(c)
  {
    c as int - '0' as int
  }

  predicate Ends(c: char)
  {
    c == '\0' || c == ' ' || c == '\n' || c == '\r' || c == '\t'
  }

  // ---------------------------------------------------------------------------
  // The language
  // ---------------------------------------------------------------------------

  predicate Digits(s: string)
  {
    forall i :: 0 <= i < |s| ==> IsDigit(s[i])
  }

  function Value(s: string): nat
    requires Digits(s)
    decreases |s|
  {
    if s == [] then 0 else Value(s[..|s| - 1]) * 10 + Digit(s[|s| - 1])
  }

  predicate Field(f: string)
  {
    f != [] && Digits(f) && Value(f) <= 255
  }

  function Dotted(fs: seq<string>): string
    requires fs != []
  {
    if |fs| == 1 then fs[0] else fs[0] + "." + Dotted(fs[1..])
  }

  predicate Fields(fs: seq<string>)
  {
    forall i :: 0 <= i < |fs| ==> Field(fs[i])
  }

  /** The text starts with these fields, dots between them, and an end right after them. */
  predicate Reads(s: string, fs: seq<string>)
  {
    && fs != [] && Fields(fs)
    && Dotted(fs) <= s
    && Ends(CharAt(s, |Dotted(fs)|))
  }

  function Values(fs: seq<string>): (r: bytes)
    requires Fields(fs)
    ensures |r| == |fs|
  {
    seq(|fs|, i requires 0 <= i < |fs| => Value(fs[i]))
  }

  // ---------------------------------------------------------------------------
  // Parsing field by field
  // ---------------------------------------------------------------------------

  function RunLength(s: string): (d: nat)
    ensures d <= |s| && Digits(s[..d]) && !IsDigit(CharAt(s, d))
  {
    if s == [] || !IsDigit(s[0]) then 0
    else
      var d := 1 + RunLength(s[1..]);
      assert s[..d] == [s[0]] + s[1..][..d - 1];
      d
  }

  lemma RunLengthIs(s: string, d: nat)
    requires d <= |s| && Digits(s[..d]) && !IsDigit(CharAt(s, d))
    ensures RunLength(s) == d
  {
    hide RunLength;
    var r := RunLength(s);
    assert forall i :: 0 <= i < d ==> s[i] == s[..d][i];
    assert forall i :: 0 <= i < r ==> s[i] == s[..r][i];
  }

  datatype Parsed = Good(octets: bytes) | Bad

  /** Exactly `n` fields, each the longest run of digits at hand. */
  function Parse(s: string, n: nat): Parsed
    decreases n
  {
    if n == 0 then Bad
    else
      var d := RunLength(s);
      if d == 0 || Value(s[..d]) > 255 then Bad
      else if n == 1 then (if Ends(CharAt(s, d)) then Good([Value(s[..d])]) else Bad)
      else if CharAt(s, d) != '.' then Bad
      else
        match Parse(s[d + 1..], n - 1)
        case Bad => Bad
        case Good(rest) => Good([Value(s[..d])] + rest)
  }

  lemma DottedPrefix(f: string, fs: seq<string>)
    requires fs != []
    ensures Dotted([f] + fs) == f + "." + Dotted(fs)
  {
    assert ([f] + fs)[1..] == fs;
  }

  /** What is parsed is in the language. */
  lemma {:induction false} ParseSound(s: string, n: nat) returns (fs: seq<string>)
    requires Parse(s, n).Good?
    ensures |fs| == n && Reads(s, fs) && Parse(s, n) == Good(Values(fs))
    decreases n
  {
    hide RunLength, Value, Ends;
    var d := RunLength(s);
    var f := s[..d];
    if n == 1 {
      fs := [f];
      assert Values(fs) == [Value(f)];
    } else {
      hide Dotted, Reads;
      var more := ParseSound(s[d + 1..], n - 1);
      fs := [f] + more;
      ReadsMore(s, f, more);
      assert Values(fs) == [Value(f)] + Values(more);
    }
  }

  /** A field and a dot in front of what reads. */
  lemma ReadsMore(s: string, f: string, more: seq<string>)
    requires Field(f) && |f| < |s| && s[..|f|] == f && s[|f|] == '.' && Reads(s[|f| + 1..], more)
    ensures Reads(s, [f] + more)
  {
    hide Field, Dotted, Ends;
    DottedPrefix(f, more);
    var fs, rest := [f] + more, s[|f| + 1..];
    assert s == f + "." + rest;
    assert CharAt(s, |Dotted(fs)|) == CharAt(rest, |Dotted(more)|);
  }

  /** What is in the language is parsed. */
  lemma {:induction false} ParseComplete(s: string, fs: seq<string>)
    requires Reads(s, fs)
    ensures Parse(s, |fs|) == Good(Values(fs))
    decreases |fs|
  {
    hide RunLength, Value;
    var f := fs[0];
    assert Field(f);
    assert f <= s && s[..|f|] == f;
    if |fs| == 1 {
      RunLengthIs(s, |f|);
      assert Values(fs) == [Value(f)];
    } else {
      var more := fs[1..];
      assert fs == [f] + more;
      DottedPrefix(f, more);
      assert CharAt(s, |f|) == '.' by { assert s[|f|] == Dotted(fs)[|f|]; }
      RunLengthIs(s, |f|);
      var rest := s[|f| + 1..];
      assert Dotted(more) <= rest by {
        assert Dotted(fs)[|f| + 1..] == Dotted(more);
      }
      assert CharAt(s, |Dotted(fs)|) == CharAt(rest, |Dotted(more)|);
      ParseComplete(rest, more);
      assert Values(fs) == [Value(f)] + Values(more);
    }
  }

  /** The parser accepts exactly four nonempty decimal fields of at most 255, and yields their
      values. */
  lemma AcceptsExactly(s: string, v: bytes)
    ensures Parse(s, 4) == Good(v) <==> exists fs :: |fs| == 4 && Reads(s, fs) && v == Values(fs)
  {
    if Parse(s, 4) == Good(v) {
      var fs := ParseSound(s, 4);
    }
    if fs :| |fs| == 4 && Reads(s, fs) && v == Values(fs) {
      ParseComplete(s, fs);
    }
  }

  // ---------------------------------------------------------------------------
  // The scanner
  // ---------------------------------------------------------------------------

  lemma {:induction false} ValueGrows(s: string, d: nat)
    requires Digits(s) && d <= |s|
    ensures Value(s[..d]) <= Value(s)
    decreases |s|
  {
    if d < |s| {
      ValueGrows(s[..|s| - 1], d);
      assert s[..|s| - 1][..d] == s[..d];
    } else {
      assert s[..d] == s;
    }
  }

  /** What parsing the rest means for the whole, after `done`. */
  function After(done: bytes, rest: Parsed): Parsed
  {
    match rest
    case Bad => Bad
    case Good(more) => Good(done + more)
  }

  /** The digits from `start` up to `i` have this value. */
  predicate Midfield(s: string, start: nat, i: nat, val: nat)
  {
    start <= i <= |s| && Digits(s[start..i]) && val == Value(s[start..i])
  }

  lemma NextDigit(s: string, start: nat, i: nat, val: nat)
    requires Midfield(s, start, i, val) && IsDigit(CharAt(s, i))
    ensures Midfield(s, start, i + 1, val * 10 + Digit(CharAt(s, i)))
  {
    assert s[start..i + 1] == s[start..i] + [s[i]];
    assert s[start..i + 1][..i - start] == s[start..i];
  }

  /** A field under way has grown past 255: the run it belongs to is too large. */
  lemma TooLarge(s: string, start: nat, i: nat, val: nat, n: nat)
    requires Midfield(s, start, i, val) && val > 255
    ensures Parse(s[start..], n) == Bad
  {
    hide Value;
    var rest, d := s[start..], i - start;
    var r := RunLength(rest);
    assert rest[..d] == s[start..i];
    assert forall i :: 0 <= i < d ==> rest[i] == rest[..d][i];
    assert rest[..r][..d] == rest[..d];
    ValueGrows(rest[..r], d);
  }

  /** The run of digits is complete. */
  lemma FieldEnds(s: string, start: nat, i: nat, val: nat, n: nat)
    requires Midfield(s, start, i, val) && !IsDigit(CharAt(s, i)) && val <= 255 && 0 < n
    ensures Parse(s[start..], n) ==
      if i == start then Bad
      else if n == 1 then (if Ends(CharAt(s, i)) then Good([val]) else Bad)
      else if CharAt(s, i) != '.' then Bad
      else After([val], Parse(s[i + 1..], n - 1))
  {
    hide Value;
    var rest, d := s[start..], i - start;
    assert rest[..d] == s[start..i] && CharAt(rest, d) == CharAt(s, i);
    RunLengthIs(rest, d);
    if i < |s| {
      assert rest[d + 1..] == s[i + 1..];
    }
  }

  lemma NewField(s: string, i: nat)
    requires i <= |s|
    ensures Midfield(s, i, i, 0)
  {
  }

  /** `ak_parse_dotted`: accepts exactly when the parse does, writes only the four bytes, and
      leaves the octets there. */
  method ParseDotted(s: string, dst: array<byte>) returns (ok: bool)
    requires dst.Length >= 4
    modifies dst
    ensures ok == Parse(s, 4).Good?
    ensures ok ==> dst[..4] == Parse(s, 4).octets
    ensures dst[4..] == old(dst[4..])
  {
    hide Parse, RunLength, Midfield;
    var part, val, digits, i := 0, 0, 0, 0;
    ghost var start := 0;
    NewField(s, 0);
    assert s[0..] == s;
    while true
      invariant digits == i - start && 0 <= start <= i <= |s| && 0 <= part < 4
      invariant 0 <= val <= 255 && Midfield(s, start, i, val)
      invariant Parse(s, 4) == After(dst[..part], Parse(s[start..], 4 - part))
      invariant dst[4..] == old(dst[4..])
      decreases |s| - i
    {
      var c := CharAt(s, i);
      if IsDigit(c) {
        NextDigit(s, start, i, val);
        val := val * 10 + (c as int - '0' as int);
        if val > 255 {
          TooLarge(s, start, i + 1, val, 4 - part);
          return false;
        }
        digits := digits + 1;
      } else {
        FieldEnds(s, start, i, val, 4 - part);
        if (c == '.' || Ends(c)) && digits > 0 {
          ghost var done := dst[..part];
          dst[part] := val;
          assert dst[..part + 1] == done + [dst[part]];
          part := part + 1;
          val := 0;
          digits := 0;
          if c != '.' {
            return part == 4;
          }
          if part == 4 {
            return false;
          }
          AfterAfter(done, dst[part - 1], Parse(s[i + 1..], 4 - part));
          NewField(s, i + 1);
          start := i + 1;
        } else {
          return false;
        }
      }
      i := i + 1;
    }
  }

  lemma AfterAfter(done: bytes, v: byte, rest: Parsed)
    ensures After(done, After([v], rest)) == After(done + [v], rest)
  {
    if rest.Good? {
      assert done + ([v] + rest.octets) == (done + [v]) + rest.octets;
    }
  }

  // ---------------------------------------------------------------------------
  // The printer
  // ---------------------------------------------------------------------------

  function Decimal(n: nat): string
  {
    if n < 10 then ['0' + n as char] else Decimal(n / 10) + ['0' + (n % 10) as char]
  }

  lemma {:induction false} DecimalReads(n: nat)
    ensures Decimal(n) != [] && Digits(Decimal(n)) && Value(Decimal(n)) == n
    ensures n < 256 ==> |Decimal(n)| <= 3
  {
    if n >= 10 {
      DecimalReads(n / 10);
      assert Decimal(n)[..|Decimal(n)| - 1] == Decimal(n / 10);
      if n < 256 && n / 10 >= 10 {
        assert n / 10 / 10 < 10;
      }
    } else {
      assert Decimal(n)[..0] == [];
    }
  }

  /** The text of `%u.%u.%u.%u` */
  function Text(b: bytes): string
    requires |b| == 4
  {
    Decimal(b[0]) + "." + Decimal(b[1]) + "." + Decimal(b[2]) + "." + Decimal(b[3])
  }

  datatype Printed = Printed(text: string) | NoSpace

  /** `__gnat_inet_ntop`: the size is an unsigned 32-bit word, compared as a signed one. */
  function Print(b: bytes, size: nat): Printed
    requires |b| == 4 && size < 0x1_0000_0000
  {
    var signed := if size < 0x8000_0000 then size else size - 0x1_0000_0000;
    if |Text(b)| >= signed then NoSpace else Printed(Text(b))
  }

  /** Printing then parsing gives the octets back, whatever follows the end of the text; the
      printer finds room exactly when the text and its NUL fit a size that is not negative as a
      signed word, and sixteen bytes always do. */
  lemma PrintRoundTrip(b: bytes, size: nat, tail: string)
    requires |b| == 4 && size < 0x1_0000_0000 && Ends(CharAt(tail, 0))
    ensures Parse(Text(b) + tail, 4) == Good(b)
    ensures Print(b, size).Printed? <==> |Text(b)| + 1 <= size < 0x8000_0000
    ensures 16 <= size < 0x8000_0000 ==> Print(b, size) == Printed(Text(b))
  {
    hide Decimal, Parse;
    var fs := [Decimal(b[0]), Decimal(b[1]), Decimal(b[2]), Decimal(b[3])];
    forall i | 0 <= i < 4
      ensures Field(fs[i]) && Value(fs[i]) == b[i] && |fs[i]| <= 3
    {
      DecimalReads(b[i]);
      assert fs[i] == Decimal(b[i]);
    }
    DottedPrefix(fs[2], [fs[3]]);
    DottedPrefix(fs[1], [fs[2], fs[3]]);
    DottedPrefix(fs[0], [fs[1], fs[2], fs[3]]);
    assert Dotted(fs) == Text(b);
    assert CharAt(Text(b) + tail, |Text(b)|) == CharAt(tail, 0);
    ParseComplete(Text(b) + tail, fs);
    assert Values(fs) == b;
  }
}
