/** Base64 as printable encoding: base64.c, after section 4.3.2.4 of RFC 1421. */
module Base64 {
  import opened Options
  import opened Numbers

  const PADV: int := 64

  const PAD: Byte := '=' as int

  // ----- the tables

  /** The alphabet: letters, digits, plus and slash. */
  ghost function Letter(v: int): Byte
    requires 0 <= v < 64
  {
    if v < 26 then 'A' as int + v
    else if v < 52 then 'a' as int + v - 26
    else if v < 62 then '0' as int + v - 52
    else if v == 62 then '+' as int else '/' as int
  }

  /** The place of a character in the alphabet, 64 for padding, or -1. */
  ghost function Place(c: int): (v: int)
    ensures -1 <= v <= PADV && (v == PADV <==> c == PAD) && (0 <= v < 64 ==> Letter(v) == c)
  {
    if 'A' as int <= c <= 'Z' as int then c - 'A' as int
    else if 'a' as int <= c <= 'z' as int then c - 'a' as int + 26
    else if '0' as int <= c <= '9' as int then c - '0' as int + 52
    else if c == '+' as int then 62
    else if c == '/' as int then 63
    else if c == '=' as int then PADV
    else -1
  }

  function TabUpper(): string { "ABCDEFGHIJKLMNOPQRSTUVWXYZ" }

  function TabLower(): string { "abcdefghijklmnopqrstuvwxyz" }

  function TabOthers(): string { "0123456789+/" }

  /** base64tab[] */
  function Base64Tab(): string { TabUpper() + TabLower() + TabOthers() }

  function RevSigns(): string { "b###cXYZ[\\]^_`a###d###" }

  function RevUpper(): string { "$%&'()*+,-./0123456789:;<=" }

  function RevLower(): string { ">?@ABCDEFGHIJKLMNOPQRSTUVW" }

  /** base64rev[] */
  function Base64Rev(): string { RevSigns() + RevUpper() + "######" + RevLower() }

  /** The tables are the alphabet and its inverse. */
  lemma TabIs(v: int)
    requires 0 <= v < 64
    ensures |Base64Tab()| == 64 && Base64Tab()[v] as int == Letter(v)
  {
    hide TabUpper, TabLower, TabOthers;
    UpperIs();
    LowerIs();
    OthersAre();
  }

  lemma UpperIs()
    ensures |TabUpper()| == 26 && forall k | 0 <= k < 26 :: TabUpper()[k] as int == Letter(k)
  {
  }

  lemma LowerIs()
    ensures |TabLower()| == 26 && forall k | 0 <= k < 26 :: TabLower()[k] as int == Letter(k + 26)
  {
  }

  lemma OthersAre()
    ensures |TabOthers()| == 12 && forall k | 0 <= k < 12 :: TabOthers()[k] as int == Letter(k + 52)
  {
  }

  lemma RevIs(k: int)
    requires 0 <= k < 80
    ensures |Base64Rev()| == 80 && Base64Rev()[k] as int - '#' as int - 1 == Place('+' as int + k)
  {
    hide RevSigns, RevUpper, RevLower;
    RevSignsAre();
    RevUpperIs();
    RevLowerIs();
  }

  lemma RevSignsAre()
    ensures |RevSigns()| == 22 && forall k | 0 <= k < 22 :: RevSigns()[k] as int - '#' as int - 1 == Place('+' as int + k)
  {
  }

  lemma RevUpperIs()
    ensures |RevUpper()| == 26 && forall k | 0 <= k < 26 :: RevUpper()[k] as int - '#' as int - 1 == Place('A' as int + k)
  {
  }

  lemma RevLowerIs()
    ensures |RevLower()| == 26 && forall k | 0 <= k < 26 :: RevLower()[k] as int - '#' as int - 1 == Place('a' as int + k)
  {
  }

  lemma NoPlace(c: int)
    requires c < '+' as int || c > 'z' as int
    ensures Place(c) == -1
  {
  }

  /** The character for six bits. */
  function Tab(v: int): (c: Byte)
    requires 0 <= v < 64
    ensures c == Letter(v) && Place(c) == v && c != PAD
  {
    TabIs(v);
    Base64Tab()[v] as int
  }

  /** The six bits for a character, 64 for padding, or -1. */
  function Val(c: Byte): (v: int)
    ensures v == Place(c) && -1 <= v <= PADV && (v == PADV <==> c == PAD)
  {
    hide Base64Rev, Place, Letter;
    var b := (c - '+' as int) % 256;
    if b > 'z' as int - '+' as int then NoPlace(c); -1 else RevIs(b); Base64Rev()[b] as int - '#' as int - 1
  }

  // ----- the encoding as a function

  /** The four characters for the next one, two or three bytes. */
  ghost function Quad(s: seq<Byte>): (q: seq<Byte>)
    requires s != []
    ensures |q| == 4
  {
    if |s| == 1 then [Tab(s[0] / 4), Tab(s[0] % 4 * 16), PAD, PAD]
    else if |s| == 2 then [Tab(s[0] / 4), Tab(s[0] % 4 * 16 + s[1] / 16), Tab(s[1] % 16 * 4), PAD]
    else [Tab(s[0] / 4), Tab(s[0] % 4 * 16 + s[1] / 16), Tab(s[1] % 16 * 4 + s[2] / 64), Tab(s[2] % 64)]
  }

  /** Byte i of s, or zero beyond its end. */
  ghost function ByteAt(s: seq<Byte>, i: nat): int {
    if i < |s| then s[i] else 0
  }

  /** The four characters are padding for what is missing of three bytes, and otherwise
      letters which hold the 24 bits of these, from the top. */
  lemma QuadHolds(s: seq<Byte>, v: seq<int>)
    requires s != [] && |v| == 4 && forall j | 0 <= j < 4 :: v[j] == if Quad(s)[j] == PAD then 0 else Place(Quad(s)[j])
    ensures forall j | 0 <= j < 4 :: Quad(s)[j] == PAD <==> |s| < j
    ensures v[0] * 0x4_0000 + v[1] * 0x1000 + v[2] * 0x40 + v[3] == ByteAt(s, 0) * 0x1_0000 + ByteAt(s, 1) * 0x100 + ByteAt(s, 2)
    ensures forall j | 0 <= j < 4 :: 0 <= v[j] < 64 && (Quad(s)[j] != PAD ==> Quad(s)[j] == Letter(v[j]))
  {
    hide Tab, Letter, Place;
    assert v[0] == s[0] / 4;
    assert |s| == 1 ==> v[1] == s[0] % 4 * 16 && v[2] == v[3] == 0;
    assert |s| == 2 ==> v[1] == s[0] % 4 * 16 + s[1] / 16 && v[2] == s[1] % 16 * 4 && v[3] == 0;
    assert |s| >= 3 ==> v[1] == s[0] % 4 * 16 + s[1] / 16 && v[2] == s[1] % 16 * 4 + s[2] / 64 && v[3] == s[2] % 64;
  }

  ghost function Rest(s: seq<Byte>): (r: seq<Byte>)
    ensures s != [] ==> |r| < |s|
  {
    if |s| <= 3 then [] else s[3..]
  }

  ghost function Encoded(s: seq<Byte>): seq<Byte>
    decreases |s|
  {
    if s == [] then [] else Quad(s) + Encoded(Rest(s))
  }

  lemma {:induction false} EncodedLength(s: seq<Byte>)
    ensures |Encoded(s)| == (|s| + 2) / 3 * 4
    decreases |s|
  {
    hide Quad;
    if s != [] {
      EncodedLength(Rest(s));
    }
  }

  /** The group of characters at 4 * g. */
  lemma {:induction false} GroupAt(s: seq<Byte>, g: nat)
    requires 3 * g < |s|
    ensures 4 * g + 4 <= |Encoded(s)| && Encoded(s)[4 * g..4 * g + 4] == Quad(s[3 * g..])
    decreases g
  {
    hide Quad;
    if g == 0 {
      assert s[0..] == s;
      assert Encoded(s)[..4] == Quad(s);
    } else {
      var z, q := Encoded(s[3..]), Quad(s);
      assert Encoded(s) == q + z;
      hide Encoded;
      GroupAt(s[3..], g - 1);
      assert s[3..][3 * (g - 1)..] == s[3 * g..];
      Later(q, z, 4 * (g - 1));
    }
  }

  lemma Later(q: seq<Byte>, z: seq<Byte>, k: nat)
    requires |q| == 4 && k + 4 <= |z|
    ensures (q + z)[k + 4..k + 8] == z[k..k + 4]
  {
  }

  lemma EncodedStep(prefix: seq<Byte>, s: seq<Byte>)
    requires s != []
    ensures prefix + Encoded(s) == prefix + Quad(s) + Encoded(Rest(s))
  {
  }

  /** The four characters for the bytes s, of which there are at most three. */
  method WriteGroup(out: array<Byte>, o: nat, s: seq<Byte>)
    requires 0 < |s| <= 3 && o + 4 <= out.Length
    modifies out
    ensures out[..o + 4] == old(out[..o]) + Quad(s) && forall k | o + 4 <= k < out.Length :: out[k] == old(out[k])
  {
    hide Tab;
    out[o] := Tab(s[0] / 4);
    if |s| == 1 {
      out[o + 1] := Tab(s[0] % 4 * 16);
      out[o + 2] := PAD;
      out[o + 3] := PAD;
    } else {
      out[o + 1] := Tab(s[0] % 4 * 16 + s[1] / 16);
      if |s| == 2 {
        out[o + 2] := Tab(s[1] % 16 * 4);
        out[o + 3] := PAD;
      } else {
        out[o + 2] := Tab(s[1] % 16 * 4 + s[2] / 64);
        out[o + 3] := Tab(s[2] % 64);
      }
    }
    assert out[..o] == old(out[..o]);
    assert out[..o + 4] == out[..o] + [out[o], out[o + 1], out[o + 2], out[o + 3]];
  }

  lemma QuadOfThree(s: seq<Byte>)
    requires |s| >= 3
    ensures Quad(s) == Quad(s[..3])
  {
  }

  /** a2base64(): the encoding and a terminating zero, if there is room. */
  method A2Base64(input: seq<Byte>, out: array<Byte>) returns (r: int)
    modifies out
    ensures r == if (|input| + 2) / 3 * 4 < out.Length then (|input| + 2) / 3 * 4 else -1
    ensures r < 0 ==> out[..] == old(out[..])
    ensures r >= 0 ==> out[..r] == Encoded(input) && out[r] == 0 && forall k | r < k < out.Length :: out[k] == old(out[k])
  {
    hide Quad, Encoded;
    var convlen := (|input| + 2) / 3 * 4;
    EncodedLength(input);
    if convlen >= out.Length {
      return -1;
    }
    var rest, o := input, 0;
    while |rest| >= 3
      invariant o + |Encoded(rest)| == convlen && 0 <= o
      invariant out[..o] + Encoded(rest) == Encoded(input)
      invariant forall k | convlen < k < out.Length :: out[k] == old(out[k])
      decreases |rest|
    {
      EncodedStep(out[..o], rest);
      EncodedLength(rest);
      QuadOfThree(rest);
      WriteGroup(out, o, rest[..3]);
      o := o + 4;
      rest := rest[3..];
    }
    EncodedLength([]);
    if rest != [] {
      EncodedStep(out[..o], rest);
      EncodedLength(rest);
      WriteGroup(out, o, rest);
      o := o + 4;
    }
    assert o == convlen && out[..o] == Encoded(input);
    out[o] := 0;
    assert out[..o] == Encoded(input);
    return convlen;
  }

  // ----- decoding as a function

  /** The values of the four characters for the next bytes. */
  ghost function Sextets(u: seq<Byte>): (t: seq<int>)
    requires u != []
    ensures |t| == 4
  {
    if |u| == 1 then [u[0] / 4, u[0] % 4 * 16, PADV, PADV]
    else if |u| == 2 then [u[0] / 4, u[0] % 4 * 16 + u[1] / 16, u[1] % 16 * 4, PADV]
    else [u[0] / 4, u[0] % 4 * 16 + u[1] / 16, u[1] % 16 * 4 + u[2] / 64, u[2] % 64]
  }

  ghost function Values(x: seq<Byte>): (t: seq<int>)
    ensures |t| == |x| && forall i | 0 <= i < |x| :: t[i] == Val(x[i])
  {
    seq(|x|, i requires 0 <= i < |x| => Val(x[i]))
  }

  ghost function Pads(t: seq<int>): (n: nat)
    ensures n <= |t|
  {
    if t == [] then 0 else Pads(t[..|t| - 1]) + if t[|t| - 1] == PADV then 1 else 0
  }

  /** The characters of a group which the decoder goes on with: padding does not come
      first, and only padding comes after padding. */
  ghost predicate Goes(t: seq<int>) {
    && (forall j | 0 <= j < |t| :: 0 <= t[j] <= PADV)
    && (|t| >= 2 ==> t[0] != PADV)
    && (|t| >= 3 && t[1] == PADV ==> t[2] == PADV)
    && (|t| >= 4 && t[2] == PADV ==> t[3] == PADV)
  }

  /** The three bytes in four values. */
  function Three(t: seq<int>): (s: seq<Byte>)
    requires |t| == 4
    ensures |s| == 3
  {
    [(t[0] * 4 + t[1] / 16) % 256, (t[1] * 16 + t[2] / 4) % 256, (t[2] * 64 + t[3]) % 256]
  }

  lemma PadsOfFour(t: seq<int>)
    requires |t| == 4 && Goes(t)
    ensures Pads(t) == if t[1] == PADV then 3 else if t[2] == PADV then 2 else if t[3] == PADV then 1 else 0
  {
    var t3 := t[..3];
    var t2 := t3[..2];
    var t1 := t2[..1];
    assert t1[..0] == [] && Pads(t1) == 0;
    assert Pads(t2) == if t[1] == PADV then 1 else 0;
    assert Pads(t3) == Pads(t2) + if t[2] == PADV then 1 else 0;
  }

  /** What is decoded, group by group, if every group is accepted. */
  ghost function Decoded(x: seq<Byte>): (r: Option<seq<Byte>>)
    decreases |x|
  {
    if x == [] then Some([])
    else if |x| < 4 || !Goes(Values(x[..4])) then None
    else match Decoded(x[4..])
      case None => None
      case Some(z) => Some(GroupBytes(Values(x[..4])) + z)
  }

  ghost function GroupBytes(t: seq<int>): (u: seq<Byte>)
    requires |t| == 4 && Goes(t)
    ensures |u| == 3 - Pads(t)
  {
    PadsOfFour(t);
    Three(t)[..3 - Pads(t)]
  }

  lemma {:induction false} DecodedLength(x: seq<Byte>)
    ensures Decoded(x).Some? ==> |x| % 4 == 0 && |Decoded(x).value| <= |x| / 4 * 3
    decreases |x|
  {
    hide Goes, Pads, Values, GroupBytes, Val;
    if |x| >= 4 && Decoded(x).Some? {
      var z := x[4..];
      DecodedLength(z);
      FourMore(|z|);
    }
  }

  lemma FourMore(n: nat)
    ensures (n + 4) % 4 == n % 4 && (n + 4) / 4 * 3 == n / 4 * 3 + 3
  {
  }

  // ----- encoding and decoding

  lemma FirstByte(a: Byte, b: int)
    requires 0 <= b < 16
    ensures (a / 4 * 4 + (a % 4 * 16 + b) / 16) % 256 == a
  {
    assert (a % 4 * 16 + b) / 16 == a % 4;
  }

  lemma SecondByte(x: int, a: Byte, b: int)
    requires 0 <= x < 4 && 0 <= b < 4
    ensures ((x * 16 + a / 16) * 16 + (a % 16 * 4 + b) / 4) % 256 == a
  {
    assert (a % 16 * 4 + b) / 4 == a % 16;
    assert (x * 16 + a / 16) * 16 + a % 16 == x * 256 + a;
  }

  lemma ThirdByte(x: int, a: Byte)
    requires 0 <= x < 16
    ensures ((x * 4 + a / 64) * 64 + a % 64) % 256 == a
  {
    assert (x * 4 + a / 64) * 64 + a % 64 == x * 256 + a;
  }

  /** The characters for some bytes have these values. */
  lemma ValuesOfQuad(u: seq<Byte>)
    requires u != []
    ensures Values(Quad(u)) == Sextets(u) && Goes(Sextets(u))
    ensures Pads(Sextets(u)) == if |u| >= 3 then 0 else 3 - |u|
  {
    hide Tab, Val, Place, Letter, Pads;
    assert Goes(Sextets(u));
    PadsOfFour(Sextets(u));
  }

  /** Four values give the bytes they come from. */
  lemma Unpack(u: seq<Byte>)
    requires u != []
    ensures Three(Sextets(u))[0] == u[0]
    ensures |u| >= 2 ==> Three(Sextets(u))[1] == u[1]
    ensures |u| >= 3 ==> Three(Sextets(u))[2] == u[2]
  {
    FirstByte(u[0], if |u| == 1 then 0 else u[1] / 16);
    if |u| >= 2 {
      SecondByte(u[0] % 4, u[1], if |u| == 2 then 0 else u[2] / 64);
    }
    if |u| >= 3 {
      ThirdByte(u[1] % 16, u[2]);
    }
  }

  lemma BytesOfQuad(u: seq<Byte>)
    requires u != []
    ensures var t := Values(Quad(u)); Goes(t) && u == GroupBytes(t) + Rest(u)
  {
    hide Quad, Sextets, Three, Goes, Pads;
    ValuesOfQuad(u);
    Unpack(u);
  }

  /** Decoding undoes encoding. */
  lemma {:induction false} RoundTrip(s: seq<Byte>)
    ensures Decoded(Encoded(s)) == Some(s)
    decreases |s|
  {
    hide Quad, Values, GroupBytes, Goes, Rest;
    if s != [] {
      RoundTrip(Rest(s));
      BytesOfQuad(s);
      var x := Encoded(s);
      assert x[..4] == Quad(s) && x[4..] == Encoded(Rest(s));
    }
  }

  /** A group which an encoder writes: the bits which no byte needs are zero, and
      padding leaves at least two characters and only comes at the end. */
  ghost predicate Clean(t: seq<int>, last: bool)
    requires |t| == 4
  {
    && Goes(t) && Pads(t) <= 2 && (Pads(t) > 0 ==> last)
    && (Pads(t) == 1 ==> t[2] % 4 == 0) && (Pads(t) == 2 ==> t[1] % 16 == 0)
  }

  ghost predicate Canonical(x: seq<Byte>)
    decreases |x|
  {
    x == [] || (|x| >= 4 && Clean(Values(x[..4]), |x| == 4) && Canonical(x[4..]))
  }

  lemma CleanQuad(u: seq<Byte>, last: bool)
    requires u != [] && (|u| < 3 ==> last)
    ensures Clean(Values(Quad(u)), last)
  {
    hide Quad, Pads, Goes, Values, Val, Sextets;
    ValuesOfQuad(u);
    SpareBits(u);
  }

  lemma SpareBits(u: seq<Byte>)
    requires u != []
    ensures |u| == 1 ==> Sextets(u)[1] % 16 == 0
    ensures |u| == 2 ==> Sextets(u)[2] % 4 == 0
  {
  }

  /** The bytes of a clean group are written as that group again. */
  lemma Repack(t: seq<int>)
    requires |t| == 4 && Clean(t, true)
    ensures GroupBytes(t) != [] && Sextets(GroupBytes(t)) == t
  {
    hide Pads;
    PadsOfFour(t);
    var u := GroupBytes(t);
    assert u[0] == t[0] * 4 + t[1] / 16;
    if Pads(t) <= 1 {
      SecondOf(t[1], t[2]);
      assert u[1] == t[1] % 16 * 16 + t[2] / 4;
    }
    if Pads(t) == 0 {
      ThirdOf(t[2], t[3]);
      assert u[2] == t[2] % 4 * 64 + t[3];
    }
  }

  lemma SecondOf(a: int, b: int)
    requires 0 <= a < 64 && 0 <= b < 64
    ensures (a * 16 + b / 4) % 256 == a % 16 * 16 + b / 4
  {
    assert a * 16 + b / 4 == a / 16 * 256 + (a % 16 * 16 + b / 4);
  }

  lemma ThirdOf(a: int, b: int)
    requires 0 <= a < 64 && 0 <= b < 64
    ensures (a * 64 + b) % 256 == a % 4 * 64 + b
  {
    assert a * 64 + b == a / 4 * 256 + (a % 4 * 64 + b);
  }

  lemma SameValues(x: seq<Byte>, y: seq<Byte>)
    requires |x| == |y| && Values(x) == Values(y) && forall i | 0 <= i < |x| :: Val(x[i]) >= 0
    ensures x == y
  {
    hide Tab, Val, Place, Letter;
    forall i | 0 <= i < |x|
      ensures x[i] == y[i]
    {
      assert Values(x)[i] == Val(x[i]) && Values(y)[i] == Val(y[i]);
    }
  }

  lemma RepackQuad(x: seq<Byte>, z: seq<Byte>, last: bool)
    requires |x| == 4 && Clean(Values(x), last) && (last ==> z == [])
    ensures var u := GroupBytes(Values(x)); u + z != [] && Quad(u + z) == x && Rest(u + z) == z
  {
    hide Quad, Sextets, Pads, Tab, Val, Place, Letter;
    var t := Values(x);
    var u := GroupBytes(t);
    Repack(t);
    ValuesOfQuad(u);
    SameQuad(u, z);
    SameValues(x, Quad(u));
  }

  lemma SameQuad(u: seq<Byte>, z: seq<Byte>)
    requires u != [] && (|u| >= 3 || z == [])
    ensures Quad(u + z) == Quad(u)
  {
    assert |u| < 3 ==> u + z == u;
  }

  /** An accepted input is what an encoder writes for its bytes exactly if it is
      canonical. */
  lemma {:induction false} CanonicalIff(x: seq<Byte>)
    requires Decoded(x).Some?
    ensures Encoded(Decoded(x).value) == x <==> Canonical(x)
    decreases |x|
  {
    hide Quad, Values, GroupBytes, Goes, Clean, Rest;
    if x != [] {
      var v, t := Decoded(x).value, Values(x[..4]);
      var z := Decoded(x[4..]).value;
      CanonicalIff(x[4..]);
      if Canonical(x) {
        assert |x| == 4 ==> x[4..] == [];
        RepackQuad(x[..4], z, |x| == 4);
        assert x == x[..4] + x[4..];
      } else if Encoded(v) == x {
        Reencoded(x);
      }
    }
  }

  lemma Reencoded(x: seq<Byte>)
    requires x != [] && Decoded(x).Some? && Encoded(Decoded(x).value) == x
    ensures Clean(Values(x[..4]), |x| == 4) && Encoded(Decoded(x[4..]).value) == x[4..]
  {
    hide Quad, Values, GroupBytes, Goes, Clean, Val, Pads;
    var v := Decoded(x).value;
    var z := Decoded(x[4..]).value;
    assert x[..4] == Quad(v) && x[4..] == Encoded(Rest(v));
    BytesOfQuad(v);
    assert |v| < 3 ==> Rest(v) == [] && x[4..] == [];
    CleanQuad(v, |x| == 4);
    assert v == GroupBytes(Values(Quad(v))) + z;
    assert z == Rest(v);
  }

  /** So every encoding is accepted, and exactly the canonical inputs are encodings. */
  lemma EncodingIff(x: seq<Byte>)
    ensures (exists s :: x == Encoded(s)) <==> Decoded(x).Some? && Canonical(x)
  {
    hide Canonical, Decoded, Encoded;
    if exists s :: x == Encoded(s) {
      var s :| x == Encoded(s);
      RoundTrip(s);
      CanonicalIff(x);
    }
    if Decoded(x).Some? && Canonical(x) {
      CanonicalIff(x);
    }
  }

  /** A character followed by three padding characters is accepted. */
  lemma OneCharacter(c: Byte)
    requires 0 <= Val(c) < 64
    ensures Decoded([c, PAD, PAD, PAD]) == Some([]) && !Canonical([c, PAD, PAD, PAD])
  {
    hide Tab, Val, Place, Letter, Pads, Values;
    var x := [c, PAD, PAD, PAD];
    var t := Values(x);
    assert x[..4] == x && x[4..] == [];
    assert t[0] == Val(c) && t[1] == Val(PAD) && t[2] == Val(PAD) && t[3] == Val(PAD);
    assert Goes(t);
    PadsOfFour(t);
    assert Pads(t) == 3 && GroupBytes(t) == [] && Decoded(x[4..]) == Some([]);
    assert Decoded(x) == Some(GroupBytes(t) + []) && GroupBytes(t) + [] == [];
  }

  // ----- the decoder

  /** The size which the check at the beginning expects. */
  lemma ExpectedSize(s: seq<Byte>)
    requires s != []
    ensures var e := Encoded(s);
            && |e| >= 4 && |e| % 4 == 0
            && |e| / 4 * 3 - (if e[|e| - 1] == PAD then 1 else 0) - (if e[|e| - 2] == PAD then 1 else 0) == |s|
  {
    hide Encoded, Quad;
    EncodedLength(s);
    var g := (|s| + 2) / 3 - 1;
    GroupAt(s, g);
    var e, q := Encoded(s), Quad(s[3 * g..]);
    assert e[|e| - 1] == e[4 * g..4 * g + 4][3] && e[|e| - 2] == e[4 * g..4 * g + 4][2];
    PadsOf(s[3 * g..]);
  }

  lemma PadsOf(u: seq<Byte>)
    requires 1 <= |u| <= 3
    ensures (Quad(u)[3] == PAD <==> |u| < 3) && (Quad(u)[2] == PAD <==> |u| < 2)
  {
    hide Tab, Letter, Place;
  }

  /** The first n bytes at the output, as far as the buffer goes. */
  ghost predicate Holds(out: array<Byte>, done: seq<Byte>)
    reads out
  {
    forall k | 0 <= k < |done| && k < out.Length :: out[k] == done[k]
  }

  lemma HoldsNothing(out: array<Byte>)
    ensures Holds(out, [])
  {
  }

  /** Three bytes are stored at k, whether the buffer has room for them or not: what
      lies beyond it is not modelled. */
  method StoreGroup(out: array<Byte>, k: nat, bytes: seq<Byte>, ghost done: seq<Byte>, n: nat)
    requires |bytes| == 3 && n <= 3 && |done| == k && Holds(out, done)
    modifies out
    ensures Holds(out, done + bytes[..n])
    ensures forall j | k + 3 <= j < out.Length :: out[j] == old(out[j])
  {
    for i := 0 to 3
      invariant forall j | 0 <= j < out.Length && !(k <= j < k + i) :: out[j] == old(out[j])
      invariant forall j | k <= j < k + i && j < out.Length :: out[j] == bytes[j - k]
    {
      if k + i < out.Length {
        out[k + i] := bytes[i];
      }
    }
  }

  /** The last character, and the one before it, of the input; of an empty input,
      the two bytes which come before it in memory. */
  function FromEnd(input: seq<Byte>, before: seq<Byte>, k: nat): Byte
    requires |before| == 2 && 1 <= k <= 2
  {
    if k <= |input| then input[|input| - k] else before[2 + |input| - k]
  }

  /** The first test of the decoder: the size it expects is unsigned, so that one
      below zero is too large for any buffer. */
  predicate TooShort(input: seq<Byte>, before: seq<Byte>, olen: nat)
    requires |before| == 2
  {
    var expected := |input| / 4 * 3 - (if FromEnd(input, before, 1) == PAD then 1 else 0)
                                    - (if FromEnd(input, before, 2) == PAD then 1 else 0);
    expected < 0 || olen < expected
  }

  /** Where the stored bytes end after g groups. */
  ghost predicate EndsAt(x: seq<Byte>, g: nat, done: seq<Byte>, end: nat) {
    && 4 * g <= |x| && |done| <= 3 * g && end <= 3 * g && end <= |done| + 3
    && end == if g == 0 then 0 else |done| + Pads(Values(x[4 * g - 4..4 * g]))
  }

  /** Where the decoder stands: done is decoded, from g groups, and t are the values
      read since. */
  ghost predicate Reading(x: seq<Byte>, g: nat, t: seq<int>, done: seq<Byte>) {
    && 4 * g + |t| <= |x| && |t| < 4 && t == Values(x[4 * g..4 * g + |t|]) && Goes(t)
    && Decoded(x) == match Decoded(x[4 * g..])
                     case None => None
                     case Some(z) => Some(done + z)
  }

  /** The tests on the next character. */
  predicate Accepts(t: seq<int>, pad: nat, b: int) {
    b >= 0 && !(pad > 0 && b != PADV) && !(pad > 0 && |t| < 2)
  }

  lemma NextValue(x: seq<Byte>, g: nat, t: seq<int>, done: seq<Byte>)
    requires Reading(x, g, t, done) && 4 * g + |t| < |x|
    ensures var b := Val(x[4 * g + |t|]);
            && (Goes(t + [b]) <==> Accepts(t, Pads(t), b))
            && Pads(t + [b]) == Pads(t) + (if b == PADV then 1 else 0)
            && t + [b] == Values(x[4 * g..4 * g + |t| + 1])
            && (!Goes(t + [b]) && |x| % 4 == 0 ==> Decoded(x) == None)
  {
    hide Tab, Val, Place, Letter, Goes, Pads, Decoded, Accepts;
    var b := Val(x[4 * g + |t|]);
    AcceptsIff(t, b);
    if !Goes(t + [b]) && |x| % 4 == 0 {
      StopsHere(x[4 * g..], t + [b]);
    }
  }

  lemma AcceptsIff(t: seq<int>, b: int)
    requires |t| < 4 && Goes(t) && b <= PADV
    ensures Goes(t + [b]) <==> Accepts(t, Pads(t), b)
    ensures Pads(t + [b]) == Pads(t) + (if b == PADV then 1 else 0)
  {
    assert (t + [b])[..|t|] == t;
    PadsLast(t);
    var t' := t + [b];
    assert t'[|t|] == b && forall j | 0 <= j < |t| :: t'[j] == t[j];
  }

  lemma StopsHere(y: seq<Byte>, t: seq<int>)
    requires |y| >= |t| && 0 < |t| <= 4 && t == Values(y[..|t|]) && !Goes(t)
    ensures Decoded(y) == None
  {
    hide Tab, Val, Place, Letter, Goes, GroupBytes;
    if |y| >= 4 && Goes(Values(y[..4])) {
      assert t == Values(y[..4])[..|t|];
      GoesPart(Values(y[..4]), |t|);
    }
  }

  /** Padding so far is to have read padding last. */
  lemma PadsLast(t: seq<int>)
    requires |t| < 4 && Goes(t)
    ensures Pads(t) > 0 <==> t != [] && t[|t| - 1] == PADV
  {
    if |t| >= 2 {
      var t' := t[..|t| - 1];
      PadsLast(t');
    }
  }

  lemma GoesPart(t: seq<int>, n: nat)
    requires n <= |t| && Goes(t)
    ensures Goes(t[..n])
  {
  }

  lemma StartReading(x: seq<Byte>)
    ensures Reading(x, 0, [], []) && Pads([]) == 0 && EndsAt(x, 0, [], 0)
  {
    assert x[0..] == x && Values(x[0..0]) == [];
    assert forall z: seq<Byte> :: [] + z == z;
  }

  lemma KeepReading(x: seq<Byte>, g: nat, t: seq<int>, b: int, done: seq<Byte>)
    requires Reading(x, g, t, done) && |t| < 3 && 4 * g + |t| < |x| && Goes(t + [b])
    requires t + [b] == Values(x[4 * g..4 * g + |t| + 1])
    ensures Reading(x, g, t + [b], done)
  {
    hide Goes, Values, Val, Decoded;
  }

  lemma GroupRead(x: seq<Byte>, g: nat, t: seq<int>, done: seq<Byte>, all: seq<int>)
    requires Reading(x, g, t, done) && |t| == 3 && 4 * g + 3 < |x| && all == t + [Val(x[4 * g + 3])] && Goes(all)
    requires |done| <= 3 * g
    ensures Pads(all) <= 3 && Pads([]) == 0
    ensures var done' := done + Three(all)[..3 - Pads(all)]; Reading(x, g + 1, [], done') && EndsAt(x, g + 1, done', |done| + 3)
  {
    hide Tab, Val, Place, Letter, Three;
    PadsOfFour(all);
    var y := x[4 * g..];
    assert all == Values(y[..4]) && y[4..] == x[4 * (g + 1)..] && y[..4] == x[4 * (g + 1) - 4..4 * (g + 1)];
    assert Values(x[4 * (g + 1)..4 * (g + 1)]) == [];
    var u := Three(all)[..3 - Pads(all)];
    assert forall z: seq<Byte> :: done + (u + z) == done + u + z;
  }

  lemma EndsBefore(x: seq<Byte>, g: nat, done: seq<Byte>, end: nat)
    requires EndsAt(x, g, done, end)
    ensures |done| <= 3 * g && end <= 3 * g && end <= |done| + 3 && end <= |x| / 4 * 3
  {
  }

  lemma AllRead(x: seq<Byte>, g: nat, t: seq<int>, done: seq<Byte>)
    requires Reading(x, g, t, done) && 4 * g == |x|
    ensures Decoded(x) == Some(done)
  {
    hide Goes, Values, Val, Pads, Decoded;
    NothingDecoded();
    assert x[4 * g..] == [];
    assert done + [] == done;
  }

  lemma EndsLast(x: seq<Byte>, g: nat, done: seq<Byte>, end: nat)
    requires EndsAt(x, g, done, end) && 4 * g == |x|
    ensures end == if x == [] then 0 else |done| + Pads(Values(x[|x| - 4..]))
  {
    hide Values, Val, Pads;
    if g > 0 {
      assert x[4 * g - 4..4 * g] == x[|x| - 4..];
    }
  }

  /** Padding at the end is not decoded. */
  lemma {:induction false} DecodedLess(x: seq<Byte>)
    requires x != [] && Decoded(x).Some?
    ensures |x| >= 4 && |Decoded(x).value| + Pads(Values(x[|x| - 4..])) <= |x| / 4 * 3
    ensures var t := Values(x[|x| - 4..]); (if t[3] == PADV then 1 else 0) + (if t[2] == PADV then 1 else 0) <= Pads(t)
    decreases |x|
  {
    hide Tab, Val, Place, Letter, Three, Goes, Pads;
    var z := x[4..];
    DecodedLength(x);
    if z == [] {
      assert x[..4] == x[|x| - 4..];
      PadsOfFour(Values(x[..4]));
      PadsAtEnd(Values(x[..4]));
    } else {
      DecodedLess(z);
      assert z[|z| - 4..] == x[|x| - 4..];
    }
  }

  lemma PadsAtEnd(t: seq<int>)
    requires |t| == 4 && Goes(t)
    ensures (if t[3] == PADV then 1 else 0) + (if t[2] == PADV then 1 else 0) <= Pads(t)
  {
    PadsOfFour(t);
  }

  /** The first tests make the buffer large enough for what is decoded. */
  lemma DecodedFits(x: seq<Byte>, before: seq<Byte>, olen: nat)
    requires |before| == 2 && Decoded(x).Some? && !TooShort(x, before, olen)
    ensures |Decoded(x).value| <= olen
  {
    hide Tab, Val, Place, Letter, Pads, Decoded;
    if x == [] {
      assert Decoded([]) == Some([]) by { NothingDecoded(); }
    } else {
      DecodedLess(x);
      var t := Values(x[|x| - 4..]);
      assert t[3] == Val(x[|x| - 1]) && t[2] == Val(x[|x| - 2]);
    }
  }

  lemma NothingDecoded()
    ensures Decoded([]) == Some([])
  {
  }

  /** The buffers which are too short for an encoding are exactly those which cannot hold
      the decoded bytes. */
  lemma ShortForEncoding(s: seq<Byte>, before: seq<Byte>, olen: nat)
    requires s != [] && |before| == 2
    ensures TooShort(Encoded(s), before, olen) <==> olen < |s|
  {
    hide Encoded;
    ExpectedSize(s);
  }

  /** For an encoding, the stored bytes end at the next multiple of three, so below olen
      exactly if that allows for whole groups. */
  lemma StoresWithin(s: seq<Byte>)
    requires s != []
    ensures var x := Encoded(s);
            |x| >= 4 && |s| + Pads(Values(x[|x| - 4..])) == |x| / 4 * 3 == (|s| + 2) / 3 * 3
  {
    hide Encoded, Quad, Pads, Values, Sextets, Goes;
    EncodedLength(s);
    var g := (|s| + 2) / 3 - 1;
    GroupAt(s, g);
    ValuesOfQuad(s[3 * g..]);
    assert Encoded(s)[|Encoded(s)| - 4..] == Encoded(s)[4 * g..4 * g + 4];
  }

  /** base64dec(), into a buffer of at least olen bytes: exactly which inputs are accepted,
      and what comes out. end is where the bytes which it stores end, of which there
      are whole groups of three. */
  method Base64Dec(input: seq<Byte>, before: seq<Byte>, out: array<Byte>, olen: nat)
    returns (r: int, ghost end: nat)
    requires |before| == 2 && olen <= out.Length
    modifies out
    ensures r == if |input| % 4 == 0 && TooShort(input, before, olen) then -2
                 else if Decoded(input).Some? then |Decoded(input).value| else -1
    ensures r >= 0 ==> r <= olen && out[..r] == Decoded(input).value
    ensures r >= 0 ==> end == if input == [] then 0 else r + Pads(Values(input[|input| - 4..]))
    ensures end <= |input| / 4 * 3 && forall k | end <= k < out.Length :: out[k] == old(out[k])
  {
    hide Decoded, Pads, Values, Val, TooShort;
    end := 0;
    DecodedLength(input);
    if |input| % 4 != 0 {
      return -1, end;
    }
    if TooShort(input, before, olen) {
      return -2, end;
    }
    r, end := DecodeGroups(input, out);
    if r >= 0 {
      DecodedFits(input, before, olen);
    }
  }

  /** Its loop. */
  method DecodeGroups(input: seq<Byte>, out: array<Byte>) returns (r: int, ghost end: nat)
    requires |input| % 4 == 0
    modifies out
    ensures r == if Decoded(input).Some? then |Decoded(input).value| else -1
    ensures r >= 0 ==> Holds(out, Decoded(input).value)
    ensures r >= 0 ==> end == if input == [] then 0 else r + Pads(Values(input[|input| - 4..]))
    ensures end <= |input| / 4 * 3 && forall k | end <= k < out.Length :: out[k] == old(out[k])
  {
    hide Decoded, Reading, EndsAt, Goes, Pads, Values, Val, Three, Tab, Place, Letter, GroupBytes, Holds;
    end := 0;
    var t: seq<int>, convlen, pad, p := [], 0, 0, 0;
    ghost var g, groups, done: seq<Byte> := 0, |input| / 4, [];
    StartReading(input);
    HoldsNothing(out);
    while p < |input|
      invariant p == 4 * g + |t| <= 4 * groups == |input| && 0 <= g && Reading(input, g, t, done) && |t| < 4
      invariant pad == Pads(t) && 0 <= convlen == |done| && EndsAt(input, g, done, end)
      invariant Holds(out, done) && forall k | end <= k < out.Length :: out[k] == old(out[k])
    {
      var b := Val(input[p]);
      EndsBefore(input, g, done, end);
      NextValue(input, g, t, done);
      if b < 0 {
        return -1, end;
      }
      if pad > 0 && b != PADV {
        return -1, end;
      }
      if pad > 0 && |t| < 2 {
        return -1, end;
      }
      pad := if b == PADV then pad + 1 else pad;
      if |t| == 3 {
        GroupRead(input, g, t, done, t + [b]);
        var bytes := Three(t + [b]);
        StoreGroup(out, convlen, bytes, done, 3 - pad);
        end := convlen + 3;
        done := done + bytes[..3 - pad];
        convlen := convlen + 3 - pad;
        t, pad, g := [], 0, g + 1;
      } else {
        KeepReading(input, g, t, b, done);
        t := t + [b];
      }
      p := p + 1;
    }
    AllRead(input, g, t, done);
    EndsLast(input, g, done, end);
    EndsBefore(input, g, done, end);
    return convlen, end;
  }
}
