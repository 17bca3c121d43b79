/** The bcrypt password strings (src/crypto/bcrypt.c). Strings are their characters, without the terminating zero; the
    key schedule and the encryption of the fixed text are one deterministic function. */
module Bcrypt {
  import opened Options
  import opened Bits
  import opened Bytes
  import opened Base64
  import opened NumberTheory

  const SALT_LEN := 16
  const HASH_LEN := 24
  const SALT_STRLEN := 30
  const HASH_STRLEN := 62

  type Salt = s: seq<byte> | |s| == SALT_LEN witness seq(SALT_LEN, _ => 0)
  type Cipher = s: seq<byte> | |s| == HASH_LEN witness seq(HASH_LEN, _ => 0)

  /** blowfish_init, the two key expansions repeated `rounds` times, and the encryption: a function of key, salt and rounds. */
  type Schedule = (seq<byte>, Salt, nat) -> Cipher

  // ----- the strings -----

  /** "$2", the minor letter, "$", two digits, "$": what sprintf prints for a cost below 100. */
  function Prefix(minor: byte, logr: nat): (s: seq<byte>)
    requires logr < 100
    ensures |s| == 7
  {
    [36, 50, minor, 36, (48 + logr / 10) as byte, (48 + logr % 10) as byte, 36]
  }

  predicate Digit(c: byte)
  {
    48 <= c <= 57
  }

  datatype Setting = Setting(minor: byte, logr: nat, salt: Salt)

  /** What generate_hash reads from the front of a salt or hash string. */
  function Parse(s: seq<byte>): (r: Option<Setting>)
    ensures r.Some? ==> 4 <= r.value.logr <= 31 && (r.value.minor == 97 || r.value.minor == 98)
  {
    if |s| + 1 < SALT_STRLEN then None
    else if s[0] != 36 || s[1] != 50 then None
    else if s[2] != 98 && s[2] != 97 then None
    else if s[3] != 36 || s[6] != 36 || !Digit(s[4]) || !Digit(s[5]) then None
    else
      var logr := (s[4] as int - 48) * 10 + (s[5] as int - 48);
      if logr < 4 || logr > 31 then None
      else
        var salt := Decoded(s[7..], SALT_LEN);
        if salt.None? then None else Some(Setting(s[2], logr, salt.value))
  }

  /** The key bytes: the password and its terminating zero, at most 72 of them for minor 'b'. */
  function KeyOf(pass: seq<byte>, minor: byte): seq<byte>
  {
    var key := pass + [0];
    if minor == 98 && |key| > 72 then key[..72] else key
  }

  function SaltText(f: Setting): (s: seq<byte>)
    requires f.logr < 100
  {
    Prefix(f.minor, f.logr) + Encoded(f.salt)
  }

  function Rounds(logr: nat): nat
  {
    Pow(2, logr)
  }

  /** The hash string for a setting. */
  function HashText(crypt: Schedule, pass: seq<byte>, f: Setting): (s: seq<byte>)
    requires f.logr < 100
  {
    SaltText(f) + Encoded(crypt(KeyOf(pass, f.minor), f.salt, Rounds(f.logr)))
  }

  function Clamp(logr: int): (r: nat)
    ensures 4 <= r <= 31 && (4 <= logr <= 31 ==> r == logr)
  {
    if logr < 4 then 4 else if logr > 31 then 31 else logr
  }

  /** No cost from 4 to 31 is nearer. */
  lemma ClampNearest(logr: int, x: int)
    requires 4 <= x <= 31
    ensures (if logr < Clamp(logr) then Clamp(logr) - logr else logr - Clamp(logr)) <= if logr < x then x - logr else logr - x
  {
  }

  /** The front of a salt string as the format of the source prints it. */
  lemma PrefixText(logr: nat, i: nat)
    requires logr < 100 && i < 7
    ensures Prefix(98, logr)[i] as int == ("$2b$" + ["0123456789"[logr / 10], "0123456789"[logr % 10]] + "$")[i] as int
    ensures Prefix(97, logr)[i] as int == ("$2a$" + ["0123456789"[logr / 10], "0123456789"[logr % 10]] + "$")[i] as int
  {
    Figures(logr / 10);
    Figures(logr % 10);
  }

  lemma TextLengths(f: Setting, c: Cipher)
    requires f.logr < 100
    ensures |SaltText(f)| == 29 && |SaltText(f) + Encoded(c)| == 61
  {
  }

  /** A salt string, and every string that starts with it, is read back as the setting it was written for. */
  lemma ParseBack(f: Setting, rest: seq<byte>)
    requires 4 <= f.logr <= 31 && (f.minor == 97 || f.minor == 98)
    ensures Parse(SaltText(f) + rest) == Some(f)
  {
    hide Encoded, Decoded;
    var s := SaltText(f) + rest;
    assert |Encoded(f.salt)| == 22;
    assert s[7..] == Encoded(f.salt) + rest;
    DecodedEncoded(f.salt, rest);
    assert s[..7] == Prefix(f.minor, f.logr);
  }

  // ----- hash_cmp -----

  /** A character as the signed value that takes part in the comparison. */
  function Signed(x: nat): int
  {
    if x >= 128 then x - 256 else x
  }

  /** The sum of the XORs of the characters. */
  function Differences(s: seq<byte>, t: seq<byte>): int
    requires |s| == |t|
  {
    if s == [] then 0 else
      var n := |s| - 1;
      Differences(s[..n], t[..n]) + Signed(BitXor(s[n] as nat, t[n] as nat))
  }

  predicate Ascii(s: seq<byte>)
  {
    forall i :: 0 <= i < |s| ==> s[i] < 128
  }

  /** On strings of seven-bit characters the comparison is exact. */
  lemma {:induction false} ComparisonExact(s: seq<byte>, t: seq<byte>)
    requires |s| == |t| && Ascii(s) && Ascii(t)
    ensures Differences(s, t) >= 0 && (Differences(s, t) == 0 <==> s == t)
  {
    if s != [] {
      var n := |s| - 1;
      ComparisonExact(s[..n], t[..n]);
      XorByte(s[n] as nat, t[n] as nat);
      XorZero(s[n] as nat, t[n] as nat);
      assert s == s[..n] + [s[n]] && t == t[..n] + [t[n]];
    }
  }

  lemma OneMore(s: seq<byte>, t: seq<byte>, c: byte)
    requires |s| == |t| + 1
    ensures Differences(s, t + [c]) == Differences(s[..|t|], t) + Signed(BitXor(s[|t|] as nat, c as nat))
    ensures Ascii(t) && c < 128 ==> Ascii(t + [c])
  {
    assert (t + [c])[..|t|] == t;
  }

  lemma ComplementXor(x: nat)
    requires 128 <= x < 256
    ensures BitXor(x, 255 - x) == 255
  {
    Powers();
    XorComplement(x, 8);
  }

  lemma NoDifferences()
    ensures Differences([], []) == 0
  {
  }

  /** hash_cmp over the whole of two strings of equal length. */
  method HashCmp(s: seq<byte>, t: seq<byte>) returns (equal: bool)
    requires |s| == |t|
    ensures equal <==> Differences(s, t) == 0
  {
    var res := 0;
    for i := 0 to |s|
      invariant res == Differences(s[..i], t[..i])
    {
      assert s[..i + 1][..i] == s[..i] && t[..i + 1][..i] == t[..i];
      res := res + Signed(BitXor(s[i] as nat, t[i] as nat));
    }
    assert s[..|s|] == s && t[..|s|] == t;
    return res == 0;
  }

  // ----- the code -----

  /** `a` holds the characters of `s` and a terminating zero. */
  ghost predicate Holds(a: array<byte>, s: seq<byte>)
    reads a
  {
    |s| + 1 <= a.Length && a[..|s| + 1] == s + [0]
  }

  method PutPrefix(out: array<byte>, minor: byte, logr: nat)
    requires logr < 100 && out.Length >= 8
    modifies out
    ensures out[..] == Splice(old(out[..]), 0, Prefix(minor, logr) + [0])
  {
    out[0], out[1], out[2], out[3] := 36, 50, minor, 36;
    out[4], out[5], out[6], out[7] := (48 + logr / 10) as byte, (48 + logr % 10) as byte, 36, 0;
  }

  /** generate_salt; `csalt` is what the random source delivers. */
  method GenerateSalt(logr: int, csalt: Salt, salt: array<byte>) returns (ok: bool)
    modifies salt
    ensures ok <==> salt.Length >= SALT_STRLEN
    ensures ok ==> Holds(salt, SaltText(Setting(98, Clamp(logr), csalt)))
  {
    if salt.Length < SALT_STRLEN {
      return false;
    }
    PutPrefix(salt, 98, Clamp(logr));
    Base64.Encode(salt, 7, csalt);
    return true;
  }

  /** The outcome of generate_hash: a hash when the salt string can be read and the room suffices. */
  function Hashed(crypt: Schedule, pass: seq<byte>, salt: seq<byte>, room: nat): Option<seq<byte>>
  {
    if room < HASH_STRLEN then None else
      match Parse(salt)
      case None => None
      case Some(f) => Some(HashText(crypt, pass, f))
  }

  /** generate_hash */
  method GenerateHash(crypt: Schedule, pass: seq<byte>, salt: seq<byte>, hash: array<byte>) returns (ok: bool)
    modifies hash
    ensures ok <==> Hashed(crypt, pass, salt, hash.Length).Some?
    ensures ok ==> Holds(hash, Hashed(crypt, pass, salt, hash.Length).value)
  {
    hide Decoded, Encoded;
    if |salt| + 1 < SALT_STRLEN {
      return false;
    }
    if hash.Length < HASH_STRLEN {
      return false;
    }
    if salt[0] != 36 || salt[1] != 50 {
      return false;
    }
    var keylen := |pass| + 1;
    var minor := salt[2];
    if minor == 98 {
      if keylen > 72 {
        keylen := 72;
      }
    } else if minor != 97 {
      return false;
    }
    if salt[3] != 36 || salt[6] != 36 || !Digit(salt[4]) || !Digit(salt[5]) {
      return false;
    }
    var logr := (salt[4] as int - 48) * 10 + (salt[5] as int - 48);
    if logr < 4 || logr > 31 {
      return false;
    }
    var csalt := new byte[SALT_LEN](_ => 0);
    var decoded := Base64.Decode(csalt, SALT_LEN, salt[7..]);
    if !decoded {
      return false;
    }
    assert csalt[..SALT_LEN] == csalt[..];
    assert Parse(salt) == Some(Setting(minor, logr, csalt[..]));
    assert (pass + [0])[..keylen] == KeyOf(pass, minor);
    var ctext := crypt((pass + [0])[..keylen], csalt[..], Pow(2, logr));
    Assemble(hash, Setting(minor, logr, csalt[..]), ctext);
    return true;
  }

  /** The hash string is put together. */
  method Assemble(hash: array<byte>, f: Setting, ctext: Cipher)
    requires f.logr < 100 && hash.Length >= HASH_STRLEN
    modifies hash
    ensures Holds(hash, SaltText(f) + Encoded(ctext))
  {
    hide Encoded;
    PutPrefix(hash, f.minor, f.logr);
    assert hash[..7] == Prefix(f.minor, f.logr);
    Base64.Encode(hash, 7, f.salt);
    assert hash[..29] == SaltText(f);
    Base64.Encode(hash, 29, ctext);
  }

  /** strlen, on an array that holds a string. */
  method StrLen(a: array<byte>, ghost s: seq<byte>) returns (n: nat)
    requires Holds(a, s) && 0 !in s
    ensures n == |s|
  {
    n := 0;
    assert forall i :: 0 <= i <= |s| ==> a[i] == (s + [0])[i];
    while a[n] != 0
      invariant n <= |s|
      decreases |s| - n
    {
      n := n + 1;
    }
  }

  /** bcrypt_newhash */
  method NewHash(crypt: Schedule, pass: seq<byte>, logr: int, csalt: Salt, hash: array<byte>) returns (ok: bool)
    modifies hash
    ensures ok <==> hash.Length >= HASH_STRLEN
    ensures ok ==> Holds(hash, HashText(crypt, pass, Setting(98, Clamp(logr), csalt)))
  {
    var f := Setting(98, Clamp(logr), csalt);
    var salt := new byte[SALT_STRLEN](_ => 0);
    var made := GenerateSalt(logr, csalt, salt);
    TextLengths(f, crypt([], csalt, 0));
    assert salt[..29] == SaltText(f);
    ParseBack(f, []);
    assert SaltText(f) + [] == SaltText(f);
    ok := GenerateHash(crypt, pass, salt[..29], hash);
  }

  /** What bcrypt_checkpass decides. */
  predicate Accepted(crypt: Schedule, pass: seq<byte>, hash: seq<byte>)
  {
    var test := Hashed(crypt, pass, hash, HASH_STRLEN);
    test.Some? && |test.value| == |hash| && Differences(hash, test.value) == 0
  }

  lemma HashTextHasNoZero(crypt: Schedule, pass: seq<byte>, f: Setting)
    requires 4 <= f.logr <= 31 && (f.minor == 97 || f.minor == 98)
    ensures Ascii(HashText(crypt, pass, f)) && 0 !in HashText(crypt, pass, f)
  {
    EncodedIsText(f.salt);
    EncodedIsText(crypt(KeyOf(pass, f.minor), f.salt, Rounds(f.logr)));
  }

  /** bcrypt_checkpass, on a string without zeros. */
  method CheckPass(crypt: Schedule, pass: seq<byte>, hash: seq<byte>) returns (ok: bool)
    requires 0 !in hash
    ensures ok <==> Accepted(crypt, pass, hash)
  {
    hide HashText, Parse, Differences;
    var test := new byte[HASH_STRLEN](_ => 0);
    var made := GenerateHash(crypt, pass, hash, test);
    if !made {
      return false;
    }
    ghost var text := Hashed(crypt, pass, hash, HASH_STRLEN).value;
    HashTextHasNoZero(crypt, pass, Parse(hash).value);
    var n := StrLen(test, text);
    if |hash| != n {
      return false;
    }
    assert test[..n] == text;
    ok := HashCmp(hash, test[..n]);
  }

  // ----- what it promises -----

  /** The hash of one password is accepted for another exactly when the key schedule cannot tell them apart. */
  lemma AcceptedIffSameCipher(crypt: Schedule, pass: seq<byte>, other: seq<byte>, f: Setting)
    requires 4 <= f.logr <= 31 && (f.minor == 97 || f.minor == 98)
    ensures Accepted(crypt, other, HashText(crypt, pass, f)) <==>
              crypt(KeyOf(other, f.minor), f.salt, Rounds(f.logr)) == crypt(KeyOf(pass, f.minor), f.salt, Rounds(f.logr))
  {
    hide Encoded, Parse, Differences;
    var c := crypt(KeyOf(pass, f.minor), f.salt, Rounds(f.logr));
    var d := crypt(KeyOf(other, f.minor), f.salt, Rounds(f.logr));
    var h, t := HashText(crypt, pass, f), HashText(crypt, other, f);
    ParseBack(f, Encoded(c));
    HashTextHasNoZero(crypt, pass, f);
    HashTextHasNoZero(crypt, other, f);
    TextLengths(f, c);
    TextLengths(f, d);
    ComparisonExact(h, t);
    if h == t {
      assert Encoded(c) == h[29..] == t[29..] == Encoded(d);
      EncodedInjective(c, d);
    }
  }

  /** A password is accepted with every hash made for it, whatever the salt and the cost. */
  lemma OwnHashAccepted(crypt: Schedule, pass: seq<byte>, logr: int, csalt: Salt)
    ensures Accepted(crypt, pass, HashText(crypt, pass, Setting(98, Clamp(logr), csalt)))
  {
    AcceptedIffSameCipher(crypt, pass, pass, Setting(98, Clamp(logr), csalt));
  }

  /** Passwords that agree in their first 72 characters are accepted for each other. */
  lemma LongPasswordsCollide(crypt: Schedule, pass: seq<byte>, other: seq<byte>, logr: int, csalt: Salt)
    requires |pass| >= 72 && |other| >= 72 && pass[..72] == other[..72]
    ensures Accepted(crypt, other, HashText(crypt, pass, Setting(98, Clamp(logr), csalt)))
  {
    assert (pass + [0])[..72] == pass[..72] && (other + [0])[..72] == other[..72];
    AcceptedIffSameCipher(crypt, pass, other, Setting(98, Clamp(logr), csalt));
  }

  /** The schedule sees exactly the password with its zero, cut to 72 bytes for minor 'b', the salt and 2^cost rounds:
      two schedules give the same hash if and only if they agree on these. */
  lemma HashesAgreeIff(crypt: Schedule, other: Schedule, pass: seq<byte>, f: Setting, key: seq<byte>)
    requires 4 <= f.logr <= 31 && (f.minor == 97 || f.minor == 98)
    requires key == pass + [0] || (f.minor == 98 && |pass| >= 72 && key == pass[..72])
    requires f.minor == 98 ==> |key| <= 72
    ensures HashText(crypt, pass, f) == HashText(other, pass, f) <==>
              crypt(key, f.salt, Pow(2, f.logr)) == other(key, f.salt, Pow(2, f.logr))
  {
    hide Encoded;
    assert |pass| >= 72 ==> (pass + [0])[..72] == pass[..72];
    var c, d := crypt(key, f.salt, Pow(2, f.logr)), other(key, f.salt, Pow(2, f.logr));
    assert KeyOf(pass, f.minor) == key;
    assert HashText(crypt, pass, f) == SaltText(f) + Encoded(c) && HashText(other, pass, f) == SaltText(f) + Encoded(d);
    if SaltText(f) + Encoded(c) == SaltText(f) + Encoded(d) {
      assert Encoded(c) == (SaltText(f) + Encoded(c))[29..] == Encoded(d);
      EncodedInjective(c, d);
    }
  }

  /** A schedule that tells two keys apart. */
  lemma SomeScheduleTellsApart(pass: seq<byte>, other: seq<byte>, f: Setting) returns (crypt: Schedule)
    requires 4 <= f.logr <= 31 && (f.minor == 97 || f.minor == 98) && KeyOf(pass, f.minor) != KeyOf(other, f.minor)
    ensures !Accepted(crypt, other, HashText(crypt, pass, f))
  {
    var key := KeyOf(pass, f.minor);
    var zeros: Cipher, ones: Cipher := seq(HASH_LEN, _ => 0), seq(HASH_LEN, _ => 1);
    crypt := (k, salt, rounds) => if k == key then zeros else ones;
    assert zeros[0] != ones[0];
    AcceptedIffSameCipher(crypt, pass, other, f);
  }

  lemma AcceptedIffSameKey(pass: seq<byte>, other: seq<byte>, f: Setting)
    requires 4 <= f.logr <= 31 && (f.minor == 97 || f.minor == 98)
    ensures (forall crypt: Schedule :: Accepted(crypt, other, HashText(crypt, pass, f))) <==>
              KeyOf(pass, f.minor) == KeyOf(other, f.minor)
  {
    hide Accepted, HashText, KeyOf;
    if KeyOf(pass, f.minor) == KeyOf(other, f.minor) {
      forall crypt: Schedule ensures Accepted(crypt, other, HashText(crypt, pass, f)) {
        AcceptedIffSameCipher(crypt, pass, other, f);
      }
    } else {
      var crypt := SomeScheduleTellsApart(pass, other, f);
    }
  }

  /** Minor 'b': whatever the schedule, a hash is accepted with another password exactly when the two agree, with their
      terminating zeros, in their first 72 bytes. */
  lemma AcceptedIffFrontsAgree(pass: seq<byte>, other: seq<byte>, f: Setting)
    requires 4 <= f.logr <= 31 && f.minor == 98
    ensures (forall crypt: Schedule :: Accepted(crypt, other, HashText(crypt, pass, f))) <==>
              var k, l := pass + [0], other + [0];
              (if |k| > 72 then k[..72] else k) == (if |l| > 72 then l[..72] else l)
  {
    hide Accepted, HashText;
    AcceptedIffSameKey(pass, other, f);
  }

  /** Minor 'a': exactly when the two are the same. */
  lemma AcceptedIffSamePassword(pass: seq<byte>, other: seq<byte>, f: Setting)
    requires 4 <= f.logr <= 31 && f.minor == 97
    ensures (forall crypt: Schedule :: Accepted(crypt, other, HashText(crypt, pass, f))) <==> pass == other
  {
    hide Accepted, HashText;
    AcceptedIffSameKey(pass, other, f);
    assert (pass + [0])[..|pass|] == pass && (other + [0])[..|other|] == other;
  }

  // ----- what else it accepts -----

  /** The character with its lowest bit flipped. */
  function Flip(x: byte): byte
  {
    if x % 2 == 0 then x + 1 else x - 1
  }

  lemma FlipXor(x: byte)
    ensures BitXor(Flip(x) as nat, x as nat) == 1
  {
    var n := x as nat;
    XorZero(n / 2, n / 2);
    assert Flip(x) as nat / 2 == n / 2;
  }

  lemma {:induction false} NoDifference(s: seq<byte>)
    ensures Differences(s, s) == 0
  {
    if s != [] {
      NoDifference(s[..|s| - 1]);
      XorZero(s[|s| - 1] as nat, s[|s| - 1] as nat);
    }
  }

  lemma {:induction false} DifferencesAdd(a: seq<byte>, u: seq<byte>, b: seq<byte>, w: seq<byte>)
    requires |a| == |b| && |u| == |w|
    ensures Differences(a + u, b + w) == Differences(a, b) + Differences(u, w)
  {
    if u == [] {
      assert a + u == a && b + w == b;
    } else {
      var n := |u| - 1;
      DifferencesAdd(a, u[..n], b, w[..n]);
      assert (a + u)[..|a| + n] == a + u[..n] && (b + w)[..|b| + n] == b + w[..n];
    }
  }

  lemma TwoDifferences(a: byte, b: byte, c: byte, d: byte)
    ensures Differences([a, b], [c, d]) == Signed(BitXor(a as nat, c as nat)) + Signed(BitXor(b as nat, d as nat))
  {
    hide BitXor;
    NoDifferences();
    assert [a, b][..1] == [a] && [c, d][..1] == [c] && [a][..0] == [] && [c][..0] == [];
    assert Differences([a], [c]) == Signed(BitXor(a as nat, c as nat));
  }

  /** The last character but one with its lowest bit flipped, the last one complemented. */
  function LookAlike(h: seq<byte>): (r: seq<byte>)
    requires |h| >= 2
    ensures |r| == |h| && r != h
  {
    h[..|h| - 2] + [Flip(h[|h| - 2]), 255 - h[|h| - 1]]
  }

  lemma LookAlikeDiffersByNothing(h: seq<byte>)
    requires |h| >= 2 && Ascii(h)
    ensures Differences(LookAlike(h), h) == 0
  {
    hide BitXor, Differences;
    var n := |h| - 2;
    var x, y := h[n], h[n + 1];
    NoDifference(h[..n]);
    FlipXor(x);
    ComplementXor(255 - y as nat);
    TwoDifferences(Flip(x), 255 - y, x, y);
    DifferencesAdd(h[..n], [Flip(x), 255 - y], h[..n], [x, y]);
    assert h == h[..n] + [x, y];
  }

  lemma LookAlikeHasNoZero(h: seq<byte>)
    requires |h| >= 2 && Ascii(h) && 0 !in h && h[|h| - 2] >= 2
    ensures 0 !in LookAlike(h)
  {
  }

  /** For every password and every hash made for it there is another string that is accepted: it is read as the same
      setting, and the comparison with the regenerated hash adds up one and minus one. */
  lemma LookAlikeAccepted(crypt: Schedule, pass: seq<byte>, f: Setting)
    requires 4 <= f.logr <= 31 && (f.minor == 97 || f.minor == 98)
    ensures var h := LookAlike(HashText(crypt, pass, f));
      0 !in h && Accepted(crypt, pass, h) && Hashed(crypt, pass, h, HASH_STRLEN) != Some(h)
  {
    hide Encoded, Parse, Differences;
    var c := crypt(KeyOf(pass, f.minor), f.salt, Rounds(f.logr));
    var t := HashText(crypt, pass, f);
    var h := LookAlike(t);
    TextLengths(f, c);
    HashTextHasNoZero(crypt, pass, f);
    LookAlikeDiffersByNothing(t);
    assert h == SaltText(f) + h[29..];
    ParseBack(f, h[29..]);
    EncodedIsText(c);
    assert t[59] == Encoded(c)[30];
    LookAlikeHasNoZero(t);
  }

  /** What the comparison of a character with the `x`-th symbol adds. */
  function Added(c: byte, x: sextet): int
  {
    Signed(BitXor(c as nat, Symbol(x) as nat))
  }

  /** Some text of symbols makes the comparison with `u` add up to `m`: a search character by character. */
  predicate Reaches(u: seq<byte>, m: int)
  {
    if u == [] then m == 0
    else exists x: sextet {:trigger Added(u[|u| - 1], x)} :: Reaches(u[..|u| - 1], m - Added(u[|u| - 1], x))
  }

  lemma {:induction false} SumIsReached(u: seq<byte>, w: seq<byte>)
    requires |u| == |w| && Known(w)
    ensures Reaches(u, Differences(u, w))
  {
    hide BitXor, Symbol, Value;
    if u != [] {
      var n := |u| - 1;
      SumIsReached(u[..n], w[..n]);
      var x := Value(w[n]).value;
      TablesAgree(x, w[n]);
      assert Reaches(u[..n], Differences(u, w) - Added(u[n], x));
    }
  }

  lemma {:induction false} ReachingText(u: seq<byte>, m: int) returns (w: seq<byte>)
    requires Reaches(u, m)
    ensures |w| == |u| && Known(w) && Differences(u, w) == m
  {
    hide BitXor, Symbol, Value;
    if u == [] {
      w := [];
      NoDifferences();
    } else {
      var n := |u| - 1;
      var x: sextet :| Reaches(u[..n], m - Added(u[n], x));
      var front := ReachingText(u[..n], m - Added(u[n], x));
      TablesAgree(x, 0);
      w := front + [Symbol(x)];
      OneMore(u, front, Symbol(x));
    }
  }

  /** Every text of 32 symbols is that of some ciphertext. */
  lemma AnyCipher(w: seq<byte>) returns (c: Cipher)
    requires |w| == 32 && Known(w)
    ensures Encoded(c) == w
  {
    hide Decoded, Encoded;
    KnownDecodes(w, HASH_LEN);
    EncodedDecoded(w, HASH_LEN);
    c := Decoded(w, HASH_LEN).value;
  }

  /** The comparison can be brought to zero by another text: `h` has the right length, some character of eight bits, and
      the search finds symbols that cancel what the salt part contributes. */
  predicate Ambiguous(h: seq<byte>)
  {
    Parse(h).Some? && |h| == HASH_STRLEN - 1 && !Ascii(h) && Reaches(h[29..], -SaltDifference(h))
  }

  /** What the front of the string contributes: at most the unused bits of the last salt character. */
  function SaltDifference(h: seq<byte>): int
  {
    match Parse(h)
    case None => 0
    case Some(f) => Differences(h[..29], SaltText(f))
  }

  /** The comparison of `h` with the text of a ciphertext, split behind the salt. */
  lemma SplitBehindSalt(h: seq<byte>, c: Cipher)
    ensures Parse(h).Some? && |h| == HASH_STRLEN - 1 ==>
              var t := SaltText(Parse(h).value) + Encoded(c);
              |t| == |h| && Differences(h, t) == SaltDifference(h) + Differences(h[29..], Encoded(c))
  {
    hide Encoded, Differences, Parse;
    if Parse(h).Some? && |h| == HASH_STRLEN - 1 {
      TextLengths(Parse(h).value, c);
      assert h == h[..29] + h[29..];
      DifferencesAdd(h[..29], h[29..], SaltText(Parse(h).value), Encoded(c));
    }
  }

  lemma UnambiguousIsExact(crypt: Schedule, pass: seq<byte>, h: seq<byte>)
    requires !Ambiguous(h) && Accepted(crypt, pass, h)
    ensures Hashed(crypt, pass, h, HASH_STRLEN) == Some(h)
  {
    hide Encoded, Differences, Parse, Reaches;
    var f := Parse(h).value;
    var c := crypt(KeyOf(pass, f.minor), f.salt, Rounds(f.logr));
    HashTextHasNoZero(crypt, pass, f);
    TextLengths(f, c);
    if Ascii(h) {
      ComparisonExact(h, HashText(crypt, pass, f));
    } else {
      SplitBehindSalt(h, c);
      EncodedKnown(c);
      SumIsReached(h[29..], Encoded(c));
    }
  }

  lemma AmbiguousIsAccepted(h: seq<byte>) returns (crypt: Schedule)
    requires Ambiguous(h)
    ensures Accepted(crypt, [], h) && Hashed(crypt, [], h, HASH_STRLEN) != Some(h)
  {
    hide Encoded, Differences, Parse, Reaches;
    var f := Parse(h).value;
    var w := ReachingText(h[29..], -SaltDifference(h));
    var c := AnyCipher(w);
    crypt := (key, salt, rounds) => c;
    SplitBehindSalt(h, c);
    HashTextHasNoZero(crypt, [], f);
  }

  /** A string is accepted only as the hash generated from itself, whatever the key schedule and the password,
      exactly when it is not ambiguous. */
  lemma AcceptedOnlyIfRegenerated(h: seq<byte>)
    ensures (forall crypt: Schedule, pass: seq<byte> :: Accepted(crypt, pass, h) ==> Hashed(crypt, pass, h, HASH_STRLEN) == Some(h)) <==> !Ambiguous(h)
  {
    hide Accepted, Hashed, Parse, Ambiguous;
    if Ambiguous(h) {
      var crypt := AmbiguousIsAccepted(h);
      assert Accepted(crypt, [], h);
    } else {
      forall crypt: Schedule, pass: seq<byte> | Accepted(crypt, pass, h) ensures Hashed(crypt, pass, h, HASH_STRLEN) == Some(h) {
        UnambiguousIsExact(crypt, pass, h);
      }
    }
  }
}
