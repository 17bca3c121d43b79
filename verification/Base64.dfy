/** The base64 variant of src/crypto/base64.c. Its bit fields never overlap, so | is written + and shifts as products. */
module Base64 {
  import opened Options
  import opened Bytes
  import opened NumberTheory

  type sextet = x: int | 0 <= x < 64

  /** The 64-character table: "./", upper case, lower case, digits. */
  function Symbol(x: sextet): byte
  {
    if x < 2 then (46 + x) as byte
    else if x < 28 then (65 + x - 2) as byte
    else if x < 54 then (97 + x - 28) as byte
    else (48 + x - 54) as byte
  }

  lemma Letters(i: nat)
    requires i < 26
    ensures "ABCDEFGHIJKLMNOPQRSTUVWXYZ"[i] as int == 65 + i && "abcdefghijklmnopqrstuvwxyz"[i] as int == 97 + i
  {
  }

  lemma Figures(i: nat)
    requires i < 10
    ensures "0123456789"[i] as int == 48 + i
  {
  }

  /** The table as it is written in the source. */
  lemma Alphabet(x: sextet)
    ensures Symbol(x) as int
         == ("./" + "ABCDEFGHIJKLMNOPQRSTUVWXYZ" + "abcdefghijklmnopqrstuvwxyz" + "0123456789")[x] as int
  {
    if 2 <= x < 28 {
      Letters(x - 2);
    } else if 28 <= x < 54 {
      Letters(x - 28);
    } else if 54 <= x {
      Figures(x - 54);
    }
  }

  /** The 256-entry table; its 0xFF entries are None. */
  function Value(c: byte): Option<sextet>
  {
    if 46 <= c <= 47 then Some(c as int - 46)
    else if 48 <= c <= 57 then Some(c as int - 48 + 0x36)
    else if 65 <= c <= 90 then Some(c as int - 65 + 0x02)
    else if 97 <= c <= 122 then Some(c as int - 97 + 0x1C)
    else None
  }

  lemma TablesAgree(x: sextet, c: byte)
    ensures Value(Symbol(x)) == Some(x)
    ensures Value(c).Some? ==> Symbol(Value(c).value) == c
    ensures Symbol(x) < 128 && Symbol(x) != 0
  {
  }

  // ----- three bytes and four characters -----

  function Group(a: byte, b: byte, c: byte): (s: seq<byte>)
    ensures |s| == 4
  {
    var x, y, z := a as int, b as int, c as int;
    [Symbol(x / 4), Symbol(x % 4 * 16 + y / 16), Symbol(y % 16 * 4 + z / 64), Symbol(z % 64)]
  }

  function Pair(a: byte, b: byte): (s: seq<byte>)
    ensures |s| == 3
  {
    var x, y := a as int, b as int;
    [Symbol(x / 4), Symbol(x % 4 * 16 + y / 16), Symbol(y % 16 * 4)]
  }

  function Single(a: byte): (s: seq<byte>)
    ensures |s| == 2
  {
    var x := a as int;
    [Symbol(x / 4), Symbol(x % 4 * 16)]
  }

  function Byte0(c1: sextet, c2: sextet): byte
  {
    (c1 * 4 + c2 / 16) as byte
  }

  function Byte1(c2: sextet, c3: sextet): byte
  {
    (c2 % 16 * 16 + c3 / 4) as byte
  }

  function Byte2(c3: sextet, c4: sextet): byte
  {
    (c3 % 4 * 64 + c4) as byte
  }

  /** The text of `s`. */
  function Encoded(s: seq<byte>): (t: seq<byte>)
    ensures |t| == EncodedLength(|s|)
  {
    if |s| >= 3 then Group(s[0], s[1], s[2]) + Encoded(s[3..])
    else if |s| == 2 then Pair(s[0], s[1])
    else if |s| == 1 then Single(s[0])
    else []
  }

  function EncodedLength(n: nat): nat
  {
    n / 3 * 4 + if n % 3 == 0 then 0 else n % 3 + 1
  }

  /** The values of the first `n` characters, when all of them are in the table. */
  predicate Known(t: seq<byte>)
  {
    forall i :: 0 <= i < |t| ==> Value(t[i]).Some?
  }

  /** The `len` bytes that the text stands for, if its characters are known. */
  function Decoded(t: seq<byte>, len: nat): (s: Option<seq<byte>>)
    requires |t| >= EncodedLength(len)
    ensures s.Some? ==> |s.value| == len
  {
    if len >= 3 then
      if !Known(t[..4]) then None else
        var rest := Decoded(t[4..], len - 3);
        if rest.None? then None else
          var c1, c2, c3, c4 := Value(t[0]).value, Value(t[1]).value, Value(t[2]).value, Value(t[3]).value;
          Some([Byte0(c1, c2), Byte1(c2, c3), Byte2(c3, c4)] + rest.value)
    else if len == 2 then
      if !Known(t[..3]) then None else
        Some([Byte0(Value(t[0]).value, Value(t[1]).value), Byte1(Value(t[1]).value, Value(t[2]).value)])
    else if len == 1 then
      if !Known(t[..2]) then None else Some([Byte0(Value(t[0]).value, Value(t[1]).value)])
    else Some([])
  }

  lemma GroupBack(a: byte, b: byte, c: byte)
    ensures Known(Group(a, b, c))
    ensures var g := Group(a, b, c); var c1, c2, c3, c4 := Value(g[0]).value, Value(g[1]).value, Value(g[2]).value, Value(g[3]).value;
            Byte0(c1, c2) == a && Byte1(c2, c3) == b && Byte2(c3, c4) == c
  {
    hide Value, Symbol;
    var x, y, z := a as int, b as int, c as int;
    TablesAgree(x / 4, a);
    TablesAgree(x % 4 * 16 + y / 16, a);
    TablesAgree(y % 16 * 4 + z / 64, a);
    TablesAgree(z % 64, a);
  }

  lemma PairBack(a: byte, b: byte)
    ensures Known(Pair(a, b))
    ensures var g := Pair(a, b); Byte0(Value(g[0]).value, Value(g[1]).value) == a && Byte1(Value(g[1]).value, Value(g[2]).value) == b
  {
    hide Value, Symbol;
    var x, y := a as int, b as int;
    TablesAgree(x / 4, a);
    TablesAgree(x % 4 * 16 + y / 16, a);
    TablesAgree(y % 16 * 4, a);
  }

  lemma SingleBack(a: byte)
    ensures Known(Single(a))
    ensures var g := Single(a); Byte0(Value(g[0]).value, Value(g[1]).value) == a
  {
  }

  /** Decoding undoes encoding, for every byte string, whatever follows in the text. */
  lemma {:induction false} DecodedEncoded(s: seq<byte>, rest: seq<byte>)
    ensures Decoded(Encoded(s) + rest, |s|) == Some(s)
  {
    hide Symbol, Value, Byte0, Byte1, Byte2, Group, Pair, Single;
    var t := Encoded(s) + rest;
    if |s| >= 3 {
      var g := Group(s[0], s[1], s[2]);
      GroupBack(s[0], s[1], s[2]);
      assert t[..4] == g && t[4..] == Encoded(s[3..]) + rest;
      DecodedEncoded(s[3..], rest);
      assert t[0] == g[0] && t[1] == g[1] && t[2] == g[2] && t[3] == g[3];
      assert s == [s[0], s[1], s[2]] + s[3..];
    } else if |s| == 2 {
      var g := Pair(s[0], s[1]);
      PairBack(s[0], s[1]);
      assert t[..3] == g && t[0] == g[0] && t[1] == g[1] && t[2] == g[2];
      assert s == [s[0], s[1]];
    } else if |s| == 1 {
      var g := Single(s[0]);
      SingleBack(s[0]);
      assert t[..2] == g && t[0] == g[0] && t[1] == g[1];
      assert s == [s[0]];
    }
  }

  /** The bits of the last character that no byte uses are zero. */
  predicate Canonical(t: seq<byte>, len: nat)
    requires |t| == EncodedLength(len)
  {
    if len % 3 == 0 then true
    else Value(t[|t| - 1]).Some? && Value(t[|t| - 1]).value % (if len % 3 == 1 then 16 else 4) == 0
  }

  lemma ByteParts(c1: sextet, c2: sextet, c3: sextet, c4: sextet)
    ensures Byte0(c1, c2) as int / 4 == c1 && Byte0(c1, c2) as int % 4 == c2 / 16
    ensures Byte1(c2, c3) as int / 16 == c2 % 16 && Byte1(c2, c3) as int % 16 == c3 / 4
    ensures Byte2(c3, c4) as int / 64 == c3 % 4 && Byte2(c3, c4) as int % 64 == c4
  {
  }

  lemma GroupForward(t: seq<byte>)
    requires |t| == 4 && Known(t)
    ensures var c1, c2, c3, c4 := Value(t[0]).value, Value(t[1]).value, Value(t[2]).value, Value(t[3]).value;
            Group(Byte0(c1, c2), Byte1(c2, c3), Byte2(c3, c4)) == t
  {
    hide Value, Symbol, Byte0, Byte1, Byte2;
    var c1, c2, c3, c4 := Value(t[0]).value, Value(t[1]).value, Value(t[2]).value, Value(t[3]).value;
    TablesAgree(c1, t[0]);
    TablesAgree(c2, t[1]);
    TablesAgree(c3, t[2]);
    TablesAgree(c4, t[3]);
    ByteParts(c1, c2, c3, c4);
    assert c2 == c2 / 16 * 16 + c2 % 16 && c3 == c3 / 4 * 4 + c3 % 4;
  }

  lemma PairForward(t: seq<byte>)
    requires |t| == 3 && Known(t)
    ensures Pair(Byte0(Value(t[0]).value, Value(t[1]).value), Byte1(Value(t[1]).value, Value(t[2]).value)) == t <==> Value(t[2]).value % 4 == 0
  {
    hide Value, Symbol, Byte0, Byte1;
    var c1, c2, c3 := Value(t[0]).value, Value(t[1]).value, Value(t[2]).value;
    ByteParts(c1, c2, c3, 0);
    LastPart(t[2], 4);
    TablesAgree(c1, t[0]);
    TablesAgree(c2, t[1]);
    assert c2 == c2 / 16 * 16 + c2 % 16;
  }

  lemma SingleForward(t: seq<byte>)
    requires |t| == 2 && Known(t)
    ensures Single(Byte0(Value(t[0]).value, Value(t[1]).value)) == t <==> Value(t[1]).value % 16 == 0
  {
    hide Value, Symbol, Byte0;
    var c1, c2 := Value(t[0]).value, Value(t[1]).value;
    ByteParts(c1, c2, 0, 0);
    LastPart(t[1], 16);
    TablesAgree(c1, t[0]);
  }

  /** A last character comes back when clearing its low bits changes nothing. */
  lemma LastPart(c: byte, m: int)
    requires Value(c).Some? && (m == 4 || m == 16)
    ensures Symbol(Value(c).value / m * m) == c <==> Value(c).value % m == 0
  {
    hide Value, Symbol;
    var v := Value(c).value;
    TablesAgree(v, c);
    TablesAgree(v / m * m, c);
  }

  lemma CanonicalRest(t: seq<byte>, len: nat)
    requires len >= 3 && |t| == EncodedLength(len)
    ensures |t| >= 4 && |t[4..]| == EncodedLength(len - 3) && (Canonical(t, len) <==> Canonical(t[4..], len - 3))
  {
    hide Value;
    assert (len - 3) % 3 == len % 3;
    assert |t| > 4 ==> t[|t| - 1] == t[4..][|t[4..]| - 1];
  }

  lemma GroupEncoded(t: seq<byte>, len: nat)
    requires len >= 3 && |t| >= EncodedLength(len) && |t| >= 4 && |t[4..]| >= EncodedLength(len - 3)
    ensures Decoded(t, len).Some? ==>
              Decoded(t[4..], len - 3).Some? && Encoded(Decoded(t, len).value) == t[..4] + Encoded(Decoded(t[4..], len - 3).value)
  {
    hide Symbol, Value, Byte0, Byte1, Byte2, Group, EncodedLength;
    if Decoded(t, len).Some? {
      GroupForward(t[..4]);
      var s := Decoded(t, len).value;
      assert s[3..] == Decoded(t[4..], len - 3).value;
    }
  }

  /** Encoding what was decoded gives the text back exactly when its unused bits are zero. */
  lemma {:induction false} EncodedDecoded(t: seq<byte>, len: nat)
    requires |t| == EncodedLength(len) && Decoded(t, len).Some?
    ensures Encoded(Decoded(t, len).value) == t <==> Canonical(t, len)
    decreases len
  {
    if len >= 3 {
      hide Encoded, Decoded, Canonical, EncodedLength;
      CanonicalRest(t, len);
      GroupEncoded(t, len);
      EncodedDecoded(t[4..], len - 3);
      assert t == t[..4] + t[4..];
      var u := Encoded(Decoded(t, len).value);
      assert u[4..] == Encoded(Decoded(t[4..], len - 3).value);
    } else {
      EncodedDecodedShort(t, len);
    }
  }

  lemma EncodedDecodedShort(t: seq<byte>, len: nat)
    requires len < 3 && |t| == EncodedLength(len) && Decoded(t, len).Some?
    ensures Encoded(Decoded(t, len).value) == t <==> Canonical(t, len)
  {
    hide Value, Byte0, Byte1, Pair, Single;
    if len == 2 {
      assert t[..3] == t;
      PairForward(t);
    } else if len == 1 {
      assert t[..2] == t;
      SingleForward(t);
    }
  }

  lemma {:induction false} EncodedIsText(s: seq<byte>)
    ensures forall i :: 0 <= i < |Encoded(s)| ==> 45 < Encoded(s)[i] < 128
  {
    if |s| >= 3 {
      EncodedIsText(s[3..]);
    }
  }

  lemma {:induction false} EncodedKnown(s: seq<byte>)
    ensures Known(Encoded(s))
  {
    if |s| >= 3 {
      GroupBack(s[0], s[1], s[2]);
      EncodedKnown(s[3..]);
    } else if |s| == 2 {
      PairBack(s[0], s[1]);
    } else if |s| == 1 {
      SingleBack(s[0]);
    }
  }

  lemma {:induction false} KnownDecodes(t: seq<byte>, len: nat)
    requires |t| == EncodedLength(len) && Known(t)
    ensures Decoded(t, len).Some?
    decreases len
  {
    if len >= 3 {
      KnownDecodes(t[4..], len - 3);
    }
  }

  /** Different byte strings have different texts. */
  lemma EncodedInjective(s: seq<byte>, t: seq<byte>)
    requires Encoded(s) == Encoded(t) && |s| == |t|
    ensures s == t
  {
    DecodedEncoded(s, []);
    DecodedEncoded(t, []);
  }

  // ----- the text as a number -----

  /** The number that bytes are in base 256, and characters in base 64, the first of them highest. */
  function ByBytes(s: seq<byte>): nat
  {
    if s == [] then 0 else
      MulNonNegative(s[0] as nat, Pow(256, |s| - 1));
      s[0] as nat * Pow(256, |s| - 1) + ByBytes(s[1..])
  }

  function ByCharacters(t: seq<byte>): nat
    requires Known(t)
  {
    if t == [] then 0 else
      MulNonNegative(Value(t[0]).value, Pow(64, |t| - 1));
      Value(t[0]).value * Pow(64, |t| - 1) + ByCharacters(t[1..])
  }

  lemma MulNonNegative(a: nat, b: nat)
    ensures a * b >= 0
  {
  }

  /** What the unused bits of the last character multiply the number with. */
  function Padding(n: nat): nat
  {
    if n % 3 == 0 then 1 else if n % 3 == 1 then 16 else 4
  }

  lemma {:induction false} Places(n: nat)
    ensures Pow(64, EncodedLength(n)) == Padding(n) * Pow(256, n)
  {
    if n >= 3 {
      Places(n - 3);
      assert EncodedLength(n) == EncodedLength(n - 3) + 4 && Padding(n) == Padding(n - 3);
      PowAdd(64, EncodedLength(n - 3), 4);
      PowAdd(256, n - 3, 3);
      assert Pow(64, 4) == 0x100_0000 == Pow(256, 3);
    } else {
      assert Pow(64, 2) == 4096 && Pow(64, 3) == 0x4_0000 && Pow(256, 1) == 256 && Pow(256, 2) == 0x1_0000;
    }
  }

  lemma {:induction false} BytesAppend(s: seq<byte>, t: seq<byte>)
    ensures ByBytes(s + t) == ByBytes(s) * Pow(256, |t|) + ByBytes(t)
  {
    if s == [] {
      assert s + t == t;
    } else {
      BytesAppend(s[1..], t);
      assert (s + t)[1..] == s[1..] + t;
      PowAdd(256, |s| - 1, |t|);
      Factored(s[0] as nat, Pow(256, |s| - 1), Pow(256, |t|), ByBytes(s[1..]));
    }
  }

  lemma {:induction false} CharactersAppend(s: seq<byte>, t: seq<byte>)
    requires Known(s) && Known(t)
    ensures Known(s + t) && ByCharacters(s + t) == ByCharacters(s) * Pow(64, |t|) + ByCharacters(t)
  {
    hide Value;
    if s == [] {
      assert s + t == t;
    } else {
      CharactersAppend(s[1..], t);
      assert (s + t)[1..] == s[1..] + t;
      PowAdd(64, |s| - 1, |t|);
      Factored(Value(s[0]).value, Pow(64, |s| - 1), Pow(64, |t|), ByCharacters(s[1..]));
    }
  }

  lemma Factored(a: int, x: int, y: int, b: int)
    ensures a * (x * y) + b * y == (a * x + b) * y
  {
  }

  lemma SymbolsRead(x: sextet)
    ensures Value(Symbol(x)) == Some(x)
  {
    TablesAgree(x, 0);
  }

  lemma FourCharacters(t: seq<byte>)
    requires Known(t) && 2 <= |t| <= 4
    ensures ByCharacters(t) == (Value(t[0]).value * 64 + Value(t[1]).value) * Pow(64, |t| - 2)
                             + (if |t| == 2 then 0 else if |t| == 3 then Value(t[2]).value
                                else Value(t[2]).value * 64 + Value(t[3]).value)
  {
    hide Value;
    assert Pow(64, 1) == 64 && Pow(64, 2) == 4096;
    assert t[1..][0] == t[1];
    assert |t| > 2 ==> t[1..][1..] == t[2..] && t[2..][0] == t[2];
    assert |t| > 3 ==> t[2..][1..] == t[3..] && t[3..][0] == t[3] && t[3..][1..] == [];
  }

  lemma ThreeBytes(s: seq<byte>)
    requires 1 <= |s| <= 3
    ensures ByBytes(s) == if |s| == 1 then s[0] as nat else if |s| == 2 then 256 * s[0] as nat + s[1] as nat
                          else 0x1_0000 * s[0] as nat + 256 * s[1] as nat + s[2] as nat
  {
    assert Pow(256, 1) == 256 && Pow(256, 2) == 0x1_0000;
    assert s[1..] != [] ==> s[1..][0] == s[1] && s[1..][1..] == s[2..];
    assert |s| > 2 ==> s[2..][0] == s[2] && s[2..][1..] == [];
  }

  lemma GroupNumber(a: byte, b: byte, c: byte)
    ensures Known(Group(a, b, c)) && ByCharacters(Group(a, b, c)) == ByBytes([a, b, c])
  {
    hide Value, Symbol, ByCharacters, ByBytes;
    var x, y, z := a as int, b as int, c as int;
    GroupBack(a, b, c);
    FourCharacters(Group(a, b, c));
    ThreeBytes([a, b, c]);
    SymbolsRead(x / 4);
    SymbolsRead(x % 4 * 16 + y / 16);
    SymbolsRead(y % 16 * 4 + z / 64);
    SymbolsRead(z % 64);
    assert Pow(64, 2) == 4096;
  }

  lemma PairNumber(a: byte, b: byte)
    ensures Known(Pair(a, b)) && ByCharacters(Pair(a, b)) == ByBytes([a, b]) * 4
  {
    hide Value, Symbol, ByCharacters, ByBytes;
    var x, y := a as int, b as int;
    PairBack(a, b);
    FourCharacters(Pair(a, b));
    ThreeBytes([a, b]);
    SymbolsRead(x / 4);
    SymbolsRead(x % 4 * 16 + y / 16);
    SymbolsRead(y % 16 * 4);
    assert Pow(64, 1) == 64;
  }

  lemma SingleNumber(a: byte)
    ensures Known(Single(a)) && ByCharacters(Single(a)) == ByBytes([a]) * 16
  {
    hide Value, Symbol, ByCharacters, ByBytes;
    var x := a as int;
    SymbolsRead(x / 4);
    SymbolsRead(x % 4 * 16);
    FourCharacters(Single(a));
    ThreeBytes([a]);
  }

  /** The text is the number that the bytes are, written in base 64, with zeros for the unused bits of the last character. */
  lemma {:induction false} SameNumber(s: seq<byte>)
    ensures Known(Encoded(s)) && ByCharacters(Encoded(s)) == ByBytes(s) * Padding(|s|)
    decreases |s|
  {
    hide Value, Symbol, Group, Pair, Single, ByCharacters, ByBytes;
    if |s| >= 3 {
      var front, rest := [s[0], s[1], s[2]], s[3..];
      GroupNumber(s[0], s[1], s[2]);
      SameNumber(rest);
      CharactersAppend(Group(s[0], s[1], s[2]), Encoded(rest));
      assert s == front + rest;
      BytesAppend(front, rest);
      Places(|rest|);
      assert Padding(|s|) == Padding(|rest|);
      Regrouped(ByBytes(front), Padding(|s|), Pow(256, |rest|), ByBytes(rest));
    } else if |s| == 2 {
      assert s == [s[0], s[1]];
      PairNumber(s[0], s[1]);
    } else if |s| == 1 {
      assert s == [s[0]];
      SingleNumber(s[0]);
    } else {
      NoNumber();
    }
  }

  lemma NoNumber()
    ensures ByBytes([]) == 0 == ByCharacters([])
  {
  }

  lemma Regrouped(a: int, p: int, x: int, b: int)
    ensures a * (p * x) + b * p == (a * x + b) * p
  {
  }

  // ----- the code -----

  lemma {:induction false} EncodedAppend(s: seq<byte>, t: seq<byte>)
    requires |s| % 3 == 0
    ensures Encoded(s + t) == Encoded(s) + Encoded(t)
  {
    hide Group, Pair, Single;
    if s == [] {
      assert s + t == t;
    } else {
      assert (s + t)[3..] == s[3..] + t;
      EncodedAppend(s[3..], t);
      assert Encoded(s + t) == Group(s[0], s[1], s[2]) + Encoded(s[3..] + t);
    }
  }

  /** One turn of the encoding loop. */
  method PutGroup(out: array<byte>, q: nat, a: byte, b: byte, c: byte)
    requires q + 4 <= out.Length
    modifies out
    ensures out[..] == Splice(old(out[..]), q, Group(a, b, c))
  {
    hide Symbol;
    var x, y, z := a as int, b as int, c as int;
    out[q] := Symbol(x / 4);
    out[q + 1] := Symbol(x % 4 * 16 + y / 16);
    out[q + 2] := Symbol(y % 16 * 4 + z / 64);
    out[q + 3] := Symbol(z % 64);
  }

  /** The switch after the loop, and the terminating zero. */
  method PutTail(out: array<byte>, q: nat, tail: seq<byte>)
    requires |tail| < 3 && q + EncodedLength(|tail|) + 1 <= out.Length
    modifies out
    ensures out[..] == Splice(old(out[..]), q, Encoded(tail) + [0])
  {
    hide Symbol;
    var e := q;
    if |tail| == 1 {
      var x := tail[0] as int;
      out[q] := Symbol(x / 4);
      out[q + 1] := Symbol(x % 4 * 16);
      e := q + 2;
    } else if |tail| == 2 {
      var x, y := tail[0] as int, tail[1] as int;
      out[q] := Symbol(x / 4);
      out[q + 1] := Symbol(x % 4 * 16 + y / 16);
      out[q + 2] := Symbol(y % 16 * 4);
      e := q + 3;
    }
    out[e] := 0;
  }

  lemma LengthSplit(len: nat, n: nat)
    requires n == len / 3
    ensures 0 <= len - 3 * n < 3 && EncodedLength(len) == 4 * n + EncodedLength(len - 3 * n)
  {
  }

  lemma TailAdded(before: seq<byte>, at: nat, front: seq<byte>, tail: seq<byte>)
    requires |front| % 3 == 0 && at + |Encoded(front)| + |Encoded(tail)| + 1 <= |before|
    ensures |Encoded(front + tail)| == |Encoded(front)| + |Encoded(tail)|
    ensures Splice(Splice(before, at, Encoded(front)), at + |Encoded(front)|, Encoded(tail) + [0]) == Splice(before, at, Encoded(front + tail) + [0])
  {
    hide Encoded, EncodedLength;
    EncodedAppend(front, tail);
    SpliceOnward(before, at, Encoded(front), Encoded(tail) + [0]);
    assert Encoded(front) + (Encoded(tail) + [0]) == Encoded(front + tail) + [0];
  }

  /** The encoding loop. */
  method PutGroups(out: array<byte>, at: nat, data: seq<byte>, groups: nat)
    requires 3 * groups <= |data| && at + 4 * groups <= out.Length
    modifies out
    ensures |Encoded(data[..3 * groups])| == 4 * groups
    ensures out[..] == Splice(old(out[..]), at, Encoded(data[..3 * groups]))
  {
    assert Encoded(data[..0]) == [];
    hide Group, Encoded, EncodedLength, Splice;
    var p, q, n := 0, at, groups;
    ghost var before := out[..];
    NothingSpliced(before, at);
    while n > 0
      invariant 0 <= n <= groups && p == 3 * (groups - n) && q == at + 4 * (groups - n)
      invariant |Encoded(data[..p])| == 4 * (groups - n)
      invariant out[..] == Splice(before, at, Encoded(data[..p]))
    {
      PutGroup(out, q, data[p], data[p + 1], data[p + 2]);
      GroupAdded(data, groups - n);
      SpliceOnward(before, at, Encoded(data[..p]), Group(data[p], data[p + 1], data[p + 2]));
      q, p, n := q + 4, p + 3, n - 1;
    }
  }

  /** base64_encode: the text and a terminating zero. */
  method Encode(out: array<byte>, at: nat, data: seq<byte>)
    requires at + EncodedLength(|data|) + 1 <= out.Length
    modifies out
    ensures out[..] == Splice(old(out[..]), at, Encoded(data) + [0])
  {
    hide Encoded, EncodedLength, Splice;
    var n := |data| / 3;
    LengthSplit(|data|, n);
    EncodeFrom(out, at, data, n);
  }

  /** The loop, `n` groups, and the rest. */
  method EncodeFrom(out: array<byte>, at: nat, data: seq<byte>, n: nat)
    requires 0 <= |data| - 3 * n < 3 && at + 4 * n + EncodedLength(|data| - 3 * n) + 1 <= out.Length
    modifies out
    ensures |Encoded(data)| == 4 * n + EncodedLength(|data| - 3 * n)
    ensures out[..] == Splice(old(out[..]), at, Encoded(data) + [0])
  {
    hide Encoded, EncodedLength, Splice;
    ghost var before := out[..];
    PutGroups(out, at, data, n);
    TailAdded(before, at, data[..3 * n], data[3 * n..]);
    assert data[..3 * n] + data[3 * n..] == data;
    PutTail(out, at + 4 * n, data[3 * n..]);
  }

  lemma GroupAdded(data: seq<byte>, i: nat)
    requires 3 * i + 3 <= |data|
    ensures Encoded(data[..3 * i + 3]) == Encoded(data[..3 * i]) + Group(data[3 * i], data[3 * i + 1], data[3 * i + 2])
  {
    hide Group;
    var g := [data[3 * i], data[3 * i + 1], data[3 * i + 2]];
    assert data[..3 * i + 3] == data[..3 * i] + g;
    EncodedAppend(data[..3 * i], g);
    assert g[3..] == [];
    assert Encoded(g) == Group(g[0], g[1], g[2]) + Encoded([]);
  }

  /** The switch after the decoding loop. */
  method GetTail(data: array<byte>, at: nat, text: seq<byte>, len: nat) returns (ok: bool)
    requires len < 3 && at + len <= data.Length && |text| >= EncodedLength(len)
    modifies data
    ensures ok <==> Decoded(text, len).Some?
    ensures ok ==> data[at..at + len] == Decoded(text, len).value
    ensures data[..at] == old(data[..at]) && data[at + len..] == old(data[at + len..])
  {
    hide Value, Byte0, Byte1;
    if len == 1 {
      var c1, c2 := Value(text[0]), Value(text[1]);
      if c1.None? || c2.None? {
        return false;
      }
      data[at] := Byte0(c1.value, c2.value);
    } else if len == 2 {
      var c1, c2, c3 := Value(text[0]), Value(text[1]), Value(text[2]);
      if c1.None? || c2.None? || c3.None? {
        return false;
      }
      data[at] := Byte0(c1.value, c2.value);
      data[at + 1] := Byte1(c2.value, c3.value);
    }
    return true;
  }

  /** One turn of the decoding loop. */
  lemma GroupTaken(text: seq<byte>, p: nat, len: nat)
    requires len >= 3 && p + EncodedLength(len) <= |text|
    ensures var c1, c2, c3, c4 := Value(text[p]), Value(text[p + 1]), Value(text[p + 2]), Value(text[p + 3]);
            var rest := Decoded(text[p + 4..], len - 3);
            Decoded(text[p..], len) == if c1.None? || c2.None? || c3.None? || c4.None? || rest.None? then None
                                       else Some([Byte0(c1.value, c2.value), Byte1(c2.value, c3.value), Byte2(c3.value, c4.value)] + rest.value)
  {
    hide Value, Byte0, Byte1, Byte2;
    var t := text[p..];
    assert t[4..] == text[p + 4..] && t[0] == text[p] && t[1] == text[p + 1] && t[2] == text[p + 2] && t[3] == text[p + 3];
    assert Known(t[..4]) <==> Value(t[0]).Some? && Value(t[1]).Some? && Value(t[2]).Some? && Value(t[3]).Some? by {
      var u := t[..4];
      assert u[0] == t[0] && u[1] == t[1] && u[2] == t[2] && u[3] == t[3];
    }
  }

  method PutBytes(data: array<byte>, q: nat, x: byte, y: byte, z: byte)
    requires q + 3 <= data.Length
    modifies data
    ensures data[..q + 3] == old(data[..q]) + [x, y, z] && forall i :: q + 3 <= i < data.Length ==> data[i] == old(data[i])
  {
    data[q], data[q + 1], data[q + 2] := x, y, z;
  }

  /** base64_decode: succeeds exactly when the characters it needs are in the table; nothing beyond `len` is written. */
  method Decode(data: array<byte>, len: nat, text: seq<byte>) returns (ok: bool)
    requires len <= data.Length && |text| >= EncodedLength(len)
    modifies data
    ensures ok <==> Decoded(text, len).Some?
    ensures ok ==> data[..len] == Decoded(text, len).value
    ensures data[len..] == old(data[len..])
  {
    hide Value, Byte0, Byte1, Byte2, Decoded;
    assert text[0..] == text;
    var p, q, n := 0, 0, len / 3;
    while n > 0
      invariant 0 <= n && 0 <= p && 0 <= q && q + 3 * n + len % 3 == len && p + 4 * n + EncodedLength(len % 3) <= |text|
      invariant Decoded(text, len).Some? <==> Decoded(text[p..], len - q).Some?
      invariant Decoded(text, len).Some? ==> Decoded(text, len).value == data[..q] + Decoded(text[p..], len - q).value
      invariant data[len..] == old(data[len..])
    {
      GroupTaken(text, p, len - q);
      var c1, c2, c3, c4 := Value(text[p]), Value(text[p + 1]), Value(text[p + 2]), Value(text[p + 3]);
      if c1.None? || c2.None? || c3.None? || c4.None? {
        return false;
      }
      PutBytes(data, q, Byte0(c1.value, c2.value), Byte1(c2.value, c3.value), Byte2(c3.value, c4.value));
      q, p, n := q + 3, p + 4, n - 1;
    }
    ok := GetTail(data, q, text[p..], len - q);
  }
}
