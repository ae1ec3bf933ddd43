/** Standard base64 with padding, as in section 4 of RFC 4648 (Go's
    base64.StdEncoding). The encoder is what the NTRIP client uses; the
    decoder is its partner, used to state what an encoding carries. */
module Base64 {
  import opened Text

  /** The 64-character alphabet of RFC 4648, table 1. */
  function Char(i: nat): (c: char)
    requires i < 64
    ensures Index(c) == Some(i)
  {
    if i < 26 then ('A' as int + i) as char
    else if i < 52 then ('a' as int + (i - 26)) as char
    else if i < 62 then ('0' as int + (i - 52)) as char
    else if i == 62 then '+'
    else '/'
  }

  /** The value of an alphabet character; None for any other character,
      the pad '=' included. */
  function Index(c: char): (r: Option<nat>)
    ensures r.Some? ==> r.value < 64
  {
    if 'A' <= c <= 'Z' then Some(c as int - 'A' as int)
    else if 'a' <= c <= 'z' then Some(c as int - 'a' as int + 26)
    else if '0' <= c <= '9' then Some(c as int - '0' as int + 52)
    else if c == '+' then Some(62)
    else if c == '/' then Some(63)
    else None
  }

  predicate IsEncodingChar(c: char) {
    Index(c).Some? || c == '='
  }

  /** A full 24-bit group: four characters of six bits each. */
  function Quantum(b0: byte, b1: byte, b2: byte): (q: string)
    ensures |q| == 4 && forall i :: 0 <= i < 4 ==> Index(q[i]).Some?
  {
    var x, y, z := b0 as int, b1 as int, b2 as int;
    [Char(x / 4), Char((x % 4) * 16 + y / 16), Char((y % 16) * 4 + z / 64), Char(z % 64)]
  }

  /** base64.StdEncoding.EncodeToString: whole groups first, then a final
      group of one or two bytes padded with '='. */
  function Encode(b: Bytes): (s: string)
    ensures |s| == 4 * ((|b| + 2) / 3)
    ensures forall i :: 0 <= i < |s| ==> IsEncodingChar(s[i])
    decreases |b|
  {
    if |b| == 0 then ""
    else if |b| == 1 then
      var x := b[0] as int;
      [Char(x / 4), Char((x % 4) * 16), '=', '=']
    else if |b| == 2 then
      var x, y := b[0] as int, b[1] as int;
      [Char(x / 4), Char((x % 4) * 16 + y / 16), Char((y % 16) * 4), '=']
    else
      Quantum(b[0], b[1], b[2]) + Encode(b[3..])
  }

  /** Decodes one group of four characters; the last group may end in
      one or two '='. */
  function DecodeQuantum(q: string, last: bool): (r: Option<Bytes>)
    requires |q| == 4
  {
    var i0, i1, i2, i3 := Index(q[0]), Index(q[1]), Index(q[2]), Index(q[3]);
    if i0.None? || i1.None? then None
    else
      var c0, c1 := i0.value, i1.value;
      var b0 := (c0 * 4 + c1 / 16) as byte;
      if last && q[2] == '=' && q[3] == '=' then Some([b0])
      else if i2.None? then None
      else
        var c2 := i2.value;
        var b1 := ((c1 % 16) * 16 + c2 / 4) as byte;
        if last && q[3] == '=' then Some([b0, b1])
        else if i3.None? then None
        else Some([b0, b1, ((c2 % 4) * 64 + i3.value) as byte])
  }

  function Decode(s: string): (r: Option<Bytes>)
    decreases |s|
  {
    if |s| == 0 then Some([])
    else if |s| < 4 then None
    else
      match DecodeQuantum(s[..4], |s| == 4)
      case None => None
      case Some(head) =>
        match Decode(s[4..])
        case None => None
        case Some(tail) => Some(head + tail)
  }

  lemma DivMod16(n: int, q: int, r: int)
    requires 0 <= r < 16 && n == 16 * q + r
    ensures n / 16 == q && n % 16 == r
  {
  }

  lemma DivMod4(n: int, q: int, r: int)
    requires 0 <= r < 4 && n == 4 * q + r
    ensures n / 4 == q && n % 4 == r
  {
  }

  /** The six-bit fields of a group put back together give the three bytes. */
  lemma SplitJoin(x: int, y: int, z: int)
    requires 0 <= x < 256 && 0 <= y < 256 && 0 <= z < 256
    ensures var c1, c2 := (x % 4) * 16 + y / 16, (y % 16) * 4 + z / 64;
      && (x / 4) * 4 + c1 / 16 == x
      && (c1 % 16) * 16 + c2 / 4 == y
      && (c2 % 4) * 64 + z % 64 == z
  {
    DivMod16((x % 4) * 16 + y / 16, x % 4, y / 16);
    DivMod4((y % 16) * 4 + z / 64, y % 16, z / 64);
  }

  lemma QuantumRoundTrip(b0: byte, b1: byte, b2: byte)
    ensures DecodeQuantum(Quantum(b0, b1, b2), false) == Some([b0, b1, b2])
  {
    var x, y, z := b0 as int, b1 as int, b2 as int;
    SplitJoin(x, y, z);
  }

  lemma Tail1RoundTrip(b0: byte)
    ensures Decode(Encode([b0])) == Some([b0])
  {
    var x := b0 as int;
    var s := Encode([b0]);
    SplitJoin(x, 0, 0);
    assert DecodeQuantum(s, true) == Some([b0]);
    assert s[..4] == s && s[4..] == [];
    assert Decode(s[4..]) == Some([]);
    assert [b0] + [] == [b0];
  }

  lemma Tail2RoundTrip(b0: byte, b1: byte)
    ensures Decode(Encode([b0, b1])) == Some([b0, b1])
  {
    var x, y := b0 as int, b1 as int;
    var s := Encode([b0, b1]);
    SplitJoin(x, y, 0);
    assert DecodeQuantum(s, true) == Some([b0, b1]);
    assert s[..4] == s && s[4..] == [];
    assert Decode(s[4..]) == Some([]);
    assert [b0, b1] + [] == [b0, b1];
  }

  /** A full group in front of a well-formed encoding decodes to its three
      bytes in front of what the rest decodes to. */
  lemma DecodeGroupThenRest(b0: byte, b1: byte, b2: byte, rest: string, tail: Bytes)
    requires Decode(rest) == Some(tail)
    ensures Decode(Quantum(b0, b1, b2) + rest) == Some([b0, b1, b2] + tail)
  {
    var q := Quantum(b0, b1, b2);
    var s := q + rest;
    assert s[..4] == q && s[4..] == rest;
    QuantumRoundTrip(b0, b1, b2);
    if |rest| == 0 {
      assert DecodeQuantum(q, true) == DecodeQuantum(q, false);
    }
  }

  lemma EncodeGroup(b: Bytes)
    requires |b| >= 3
    ensures Encode(b) == Quantum(b[0], b[1], b[2]) + Encode(b[3..])
  {
  }

  lemma SplitGroup(b: Bytes)
    requires |b| >= 3
    ensures b == [b[0], b[1], b[2]] + b[3..]
  {
  }

  lemma ShortRoundTrip(b: Bytes)
    requires |b| < 3
    ensures Decode(Encode(b)) == Some(b)
  {
    if |b| == 1 {
      assert b == [b[0]];
      Tail1RoundTrip(b[0]);
    } else if |b| == 2 {
      assert b == [b[0], b[1]];
      Tail2RoundTrip(b[0], b[1]);
    }
  }

  /** Decoding undoes encoding: every byte string is recovered exactly. */
  lemma {:induction false} DecodeEncode(b: Bytes)
    ensures Decode(Encode(b)) == Some(b)
    decreases |b|
  {
    if |b| < 3 {
      ShortRoundTrip(b);
    } else {
      var rest := b[3..];
      DecodeEncode(rest);
      EncodeGroup(b);
      DecodeGroupThenRest(b[0], b[1], b[2], Encode(rest), rest);
      SplitGroup(b);
    }
  }
}
