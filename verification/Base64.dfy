/** The Base64 codec of src/base64.c.

    Encoded and decoded texts are first specified position by position (EncAt,
    DecAt); the array loops of the source are proved against these, and so is a
    recursive transcription of section 4 of RFC 4648 (RfcEncode). Texts are C
    strings: no position holds the NUL character. */
module Base64 {
  import opened Wrappers

  type byte = bv8

  const UPPER: string := "ABCDEFGHIJKLMNOPQRSTUVWXYZ"
  const LOWER: string := "abcdefghijklmnopqrstuvwxyz"
  const DIGITS: string := "0123456789+/"
  const CB64: string := UPPER + LOWER + DIGITS

  const EINVAL: int := -22

  ghost predicate CString(s: string) { forall i :: 0 <= i < |s| ==> s[i] != '\0' }

  // ----- The alphabet -----

  /** The alphabet position of c, or -1. */
  function Rank(c: char): int {
    if 'A' <= c <= 'Z' then c as int - 65
    else if 'a' <= c <= 'z' then c as int - 71
    else if '0' <= c <= '9' then c as int + 4
    else if c == '+' then 62
    else if c == '/' then 63
    else -1
  }

  predicate IsSym(c: char) { Rank(c) >= 0 }

  /** cb64[t]. */
  function Sym(t: byte): (c: char)
    requires t < 64
    ensures IsSym(c)
  {
    var k := t as int;
    if k < 26 then (k + 65) as char
    else if k < 52 then (k + 71) as char
    else if k < 62 then (k - 4) as char
    else if k == 62 then '+'
    else '/'
  }

  /** The value of a symbol: its distance from the start of cb64. */
  function Val(c: char): (t: byte)
    ensures t < 64
  {
    if IsSym(c) then Rank(c) as byte else 0
  }

  lemma UpperAt(k: nat)
    requires k < 26
    ensures UPPER[k] == (k + 65) as char
  {}

  lemma LowerAt(k: nat)
    requires k < 26
    ensures LOWER[k] == (k + 97) as char
  {}

  lemma DigitsAt(k: nat)
    requires k < 12
    ensures DIGITS[k] == if k < 10 then (k + 48) as char else if k == 10 then '+' else '/'
  {}

  lemma RankAt(k: nat)
    requires k < 64
    ensures Rank(CB64[k]) == k
  {
    if k < 26 {
      UpperAt(k);
    } else if k < 52 {
      LowerAt(k - 26);
    } else {
      DigitsAt(k - 52);
    }
  }

  /** Sym is the table of the source, and Rank is strchr on it: c occurs at Rank(c) and
      nowhere else, and does not occur at all when Rank(c) is negative. */
  lemma SymIsTable(c: char)
    ensures var table := "ABCDEFGHIJKLMNOPQRSTUVWXYZ" + "abcdefghijklmnopqrstuvwxyz" + "0123456789+/";
            && (forall t: byte :: t < 64 ==> Sym(t) == table[t as int])
            && (IsSym(c) ==> Rank(c) < 64 && table[Rank(c)] == c)
            && forall k :: 0 <= k < 64 && table[k] == c ==> k == Rank(c)
  {
    forall k | 0 <= k < 64 ensures Rank(CB64[k]) == k { RankAt(k); }
    forall t: byte | t < 64 ensures Sym(t) == CB64[t as int] {
      RankOfSym(t);
      RankInjective(Sym(t), CB64[t as int]);
    }
    if IsSym(c) {
      RankInjective(c, CB64[Rank(c)]);
    }
  }

  lemma RankOfSym(t: byte)
    requires t < 64
    ensures Rank(Sym(t)) == t as int
  {}

  lemma RankInjective(c: char, d: char)
    requires IsSym(c) && Rank(c) == Rank(d)
    ensures c == d
  {}

  lemma ValSym(t: byte)
    requires t < 64
    ensures Val(Sym(t)) == t
  {
    RankOfSym(t);
  }

  lemma ValIsRank(c: char)
    requires IsSym(c)
    ensures Val(c) as int == Rank(c)
  {
    var r := Rank(c);
    assert 0 <= r < 64;
    assert (r as byte) as int == r;
  }

  lemma SymVal(c: char)
    requires IsSym(c)
    ensures Sym(Val(c)) == c
  {
    hide Sym;
    ValIsRank(c);
    RankOfSym(Val(c));
    RankInjective(Sym(Val(c)), c);
  }

  lemma SymsArePlain(c: char)
    requires IsSym(c)
    ensures '+' <= c <= 'z' && c != ';' && c != '=' && c != '?'
  {}

  // ----- Encoding -----

  function EncLen(len: nat): (r: nat)
    ensures r % 4 == 0 && 3 * r == 4 * (len + (3 - len % 3) % 3)
  {
    (len + 2) / 3 * 4
  }

  /** Byte k of b, continued with zero bytes: the padding bits of RFC 4648. */
  function ByteAt(b: seq<byte>, k: nat): byte { if k < |b| then b[k] else 0 }

  /** The six bits of b that symbol r of group q of its encoding stands for. */
  function Sextet(b: seq<byte>, q: nat, r: nat): (t: byte)
    requires r < 4
    ensures t < 64
  {
    var k := 3 * q;
    match r
    case 0 => ByteAt(b, k) >> 2
    case 1 => ((ByteAt(b, k) << 4) & 0x3f) | (ByteAt(b, k + 1) >> 4)
    case 2 => ((ByteAt(b, k + 1) << 2) & 0x3f) | (ByteAt(b, k + 2) >> 6)
    case _ => ByteAt(b, k + 2) & 0x3f
  }

  /** Symbol i of the encoding of b: '=' once no bit of b is left. */
  function EncAt(b: seq<byte>, i: nat): char {
    if i / 4 * 3 + i % 4 > |b| then '=' else Sym(Sextet(b, i / 4, i % 4))
  }

  function Encode(b: seq<byte>): (s: string)
    ensures |s| == EncLen(|b|)
  {
    seq(EncLen(|b|), i requires 0 <= i < EncLen(|b|) => EncAt(b, i))
  }

  /** Section 4 of RFC 4648: 24-bit groups cut into four 6-bit values, the last group
      filled with zero bits on the right and marked with one or two '='. */
  function RfcEncode(b: seq<byte>): string {
    if |b| == 0 then ""
    else
      var g := RfcGroup(ByteAt(b, 0), ByteAt(b, 1), ByteAt(b, 2));
      if |b| == 1 then [Sym(g[0]), Sym(g[1]), '=', '=']
      else if |b| == 2 then [Sym(g[0]), Sym(g[1]), Sym(g[2]), '=']
      else [Sym(g[0]), Sym(g[1]), Sym(g[2]), Sym(g[3])] + RfcEncode(b[3..])
  }

  function RfcGroup(x: byte, y: byte, z: byte): (g: seq<byte>)
    ensures |g| == 4 && g[0] < 64 && g[1] < 64 && g[2] < 64 && g[3] < 64
  {
    var n := ((x as bv24) << 16) | ((y as bv24) << 8) | (z as bv24);
    [((n >> 18) & 63) as byte, ((n >> 12) & 63) as byte, ((n >> 6) & 63) as byte, (n & 63) as byte]
  }

  lemma GroupBits(x: byte, y: byte, z: byte)
    ensures RfcGroup(x, y, z) ==
            [x >> 2, ((x << 4) & 0x3f) | (y >> 4), ((y << 2) & 0x3f) | (z >> 6), z & 0x3f]
  {}

  lemma GroupIsSextets(b: seq<byte>)
    ensures RfcGroup(ByteAt(b, 0), ByteAt(b, 1), ByteAt(b, 2)) ==
            [Sextet(b, 0, 0), Sextet(b, 0, 1), Sextet(b, 0, 2), Sextet(b, 0, 3)]
  {
    GroupBits(ByteAt(b, 0), ByteAt(b, 1), ByteAt(b, 2));
  }

  lemma EncShift(b: seq<byte>, i: nat)
    requires |b| >= 3
    ensures EncAt(b, i + 4) == EncAt(b[3..], i)
  {
    hide Val, Sym, Rank, IsSym;
    var k := i / 4 * 3;
    assert (i + 4) / 4 == i / 4 + 1 && (i + 4) % 4 == i % 4;
    assert ByteAt(b, k + 3) == ByteAt(b[3..], k);
    assert ByteAt(b, k + 4) == ByteAt(b[3..], k + 1);
    assert ByteAt(b, k + 5) == ByteAt(b[3..], k + 2);
  }

  lemma EncodeSplit(b: seq<byte>)
    requires |b| >= 3
    ensures Encode(b) == [EncAt(b, 0), EncAt(b, 1), EncAt(b, 2), EncAt(b, 3)] + Encode(b[3..])
  {
    hide Val, Sym, Rank, IsSym;
    var s, r := Encode(b), Encode(b[3..]);
    forall i | 0 <= i < |r| ensures s[i + 4] == r[i] { EncShift(b, i); }
    assert s[4..] == r;
  }

  lemma {:induction false} EncodeIsRfc(b: seq<byte>)
    ensures Encode(b) == RfcEncode(b)
  {
    GroupIsSextets(b);
    if |b| >= 3 {
      EncodeSplit(b);
      EncodeIsRfc(b[3..]);
    }
  }

  function NatOf(b: byte): nat { b as nat }

  lemma GroupNumber(x: byte, y: byte, z: byte)
    ensures var t0, t1, t2, t3 := x >> 2, ((x << 4) & 0x3f) | (y >> 4), ((y << 2) & 0x3f) | (z >> 6), z & 0x3f;
            NatOf(t0) * 262144 + NatOf(t1) * 4096 + NatOf(t2) * 64 + NatOf(t3) ==
            NatOf(x) * 65536 + NatOf(y) * 256 + NatOf(z)
  {}

  /** Read as a number, group q of the text, a digit of base 64 a character and '=' for 0, is
      group q of the bytes, the first byte most significant and zero where no byte is left. */
  lemma EncodeNumber(b: seq<byte>, q: nat)
    requires 3 * q < |b|
    ensures 4 * q + 3 < |Encode(b)|
    ensures var s := Encode(b);
            NatOf(Val(s[4 * q])) * 262144 + NatOf(Val(s[4 * q + 1])) * 4096
            + NatOf(Val(s[4 * q + 2])) * 64 + NatOf(Val(s[4 * q + 3])) ==
            NatOf(b[3 * q]) * 65536
            + (if 3 * q + 1 < |b| then NatOf(b[3 * q + 1]) * 256 else 0)
            + (if 3 * q + 2 < |b| then NatOf(b[3 * q + 2]) else 0)
  {
    hide Val, Sextet, Encode, ByteAt, NatOf;
    GroupOfSextets(b, q);
    EncodeVal(b, q, 0);
    EncodeVal(b, q, 1);
    EncodeVal(b, q, 2);
    EncodeVal(b, q, 3);
    ByteAtNumber(b, 3 * q);
    ByteAtNumber(b, 3 * q + 1);
    ByteAtNumber(b, 3 * q + 2);
  }

  lemma GroupOfSextets(b: seq<byte>, q: nat)
    requires 3 * q < |b|
    ensures NatOf(Sextet(b, q, 0)) * 262144 + NatOf(Sextet(b, q, 1)) * 4096
            + NatOf(Sextet(b, q, 2)) * 64 + NatOf(Sextet(b, q, 3)) ==
            NatOf(ByteAt(b, 3 * q)) * 65536 + NatOf(ByteAt(b, 3 * q + 1)) * 256 + NatOf(ByteAt(b, 3 * q + 2))
  {
    hide Sextet, ByteAt, NatOf;
    SextetsOfGroup(b, q);
    GroupNumber(ByteAt(b, 3 * q), ByteAt(b, 3 * q + 1), ByteAt(b, 3 * q + 2));
  }

  lemma EncodeVal(b: seq<byte>, q: nat, r: nat)
    requires 3 * q < |b| && r < 4
    ensures 4 * q + r < |Encode(b)| && Val(Encode(b)[4 * q + r]) == Sextet(b, q, r)
  {
    hide Val, Sym, Rank, IsSym, Sextet;
    EncAtKind(b, 4 * q + r);
    SextetsOfGroup(b, q);
    assert (4 * q + r) / 4 == q && (4 * q + r) % 4 == r;
  }

  lemma ByteAtNumber(b: seq<byte>, k: nat)
    ensures NatOf(ByteAt(b, k)) == if k < |b| then NatOf(b[k]) else 0
  {}

  lemma SextetsOfGroup(b: seq<byte>, q: nat)
    requires 3 * q < |b|
    ensures Sextet(b, q, 0) == ByteAt(b, 3 * q) >> 2
    ensures Sextet(b, q, 1) == ((ByteAt(b, 3 * q) << 4) & 0x3f) | (ByteAt(b, 3 * q + 1) >> 4)
    ensures Sextet(b, q, 2) == ((ByteAt(b, 3 * q + 1) << 2) & 0x3f) | (ByteAt(b, 3 * q + 2) >> 6)
    ensures Sextet(b, q, 3) == ByteAt(b, 3 * q + 2) & 0x3f
    ensures 3 * q + 1 >= |b| ==> Sextet(b, q, 2) == 0
    ensures 3 * q + 2 >= |b| ==> Sextet(b, q, 3) == 0
  {}

  // ----- Decoding -----

  function DecLen(s: string): (r: nat)
    requires |s| % 4 == 0
  {
    |s| / 4 * 3
    - (if |s| > 0 && s[|s| - 1] == '=' then 1 else 0)
    - (if |s| > 1 && s[|s| - 2] == '=' then 1 else 0)
  }

  /** How many symbols carry the first n decoded bytes. */
  function Carriers(n: nat): nat { n / 3 * 4 + if n % 3 == 0 then 0 else n % 3 + 1 }

  function Vals(s: string): (ts: seq<byte>)
    ensures |ts| == |s| && forall i :: 0 <= i < |s| ==> ts[i] < 64
  {
    seq(|s|, i requires 0 <= i < |s| => Val(s[i]))
  }

  /** Byte r of group q carried by the six-bit values ts. */
  function Octet(ts: seq<byte>, q: nat, r: nat): byte
    requires r < 3 && 4 * q + r + 2 <= |ts|
  {
    var k := 4 * q;
    match r
    case 0 => (ts[k] << 2) | (ts[k + 1] >> 4)
    case 1 => (ts[k + 1] << 4) | (ts[k + 2] >> 2)
    case _ => (ts[k + 2] << 6) | ts[k + 3]
  }

  function Octets(ts: seq<byte>, n: nat): (b: seq<byte>)
    requires Carriers(n) <= |ts|
    ensures |b| == n
  {
    seq(n, j requires 0 <= j < n => Octet(ts, j / 3, j % 3))
  }

  predicate Decodable(s: string)
    requires |s| % 4 == 0
  {
    forall i :: 0 <= i < Carriers(DecLen(s)) ==> IsSym(s[i])
  }

  function Decoded(s: string): (b: seq<byte>)
    requires |s| % 4 == 0
    ensures |b| == DecLen(s)
  {
    Octets(Vals(s), DecLen(s))
  }

  /** Valid text: whole groups, at most two '=' and these at the end, symbols elsewhere. */
  predicate IsValid(s: string) {
    && |s| % 4 == 0
    && forall i :: 0 <= i < |s| - Pads(s) ==> IsSym(s[i])
  }

  function Pads(s: string): (n: nat)
    ensures n <= 2 && n <= |s|
  {
    if |s| == 0 || s[|s| - 1] != '=' then 0 else if |s| > 1 && s[|s| - 2] == '=' then 2 else 1
  }

  /** The decoder succeeds on exactly the texts the validator accepts. */
  lemma DecodableIffValid(s: string)
    requires |s| % 4 == 0
    ensures Decodable(s) <==> IsValid(s)
  {
    if s != "" {
      if s[|s| - 2] == '=' && s[|s| - 1] != '=' {
        assert Carriers(DecLen(s)) == |s| - 1;
        assert !IsSym(s[|s| - 2]);
      } else {
        assert Carriers(DecLen(s)) == |s| - Pads(s);
      }
    }
  }

  /** n characters '=', at most two, behind characters of the alphabet. */
  ghost predicate PaddedBy(s: string, n: nat) {
    && n <= 2 && n <= |s| && (forall i :: |s| - n <= i < |s| ==> s[i] == '=')
    && forall i :: 0 <= i < |s| - n ==> 0 <= Rank(s[i])
  }

  /** A text is valid if and only if it consists of whole groups and, but for at most two '=' at
      its end, of characters of the alphabet. */
  lemma ValidIff(s: string)
    ensures IsValid(s) <==> |s| % 4 == 0 && exists n: nat :: PaddedBy(s, n)
  {
    hide Rank;
    EqualsHasNoRank();
    if IsValid(s) {
      assert forall i :: 0 <= i < |s| - Pads(s) ==> IsSym(s[i]);
      assert PaddedBy(s, Pads(s));
    }
  }

  lemma EqualsHasNoRank()
    ensures Rank('=') < 0
  {}

  lemma EncAtKind(b: seq<byte>, i: nat)
    ensures EncAt(b, i) == '=' <==> i / 4 * 3 + i % 4 > |b|
    ensures IsSym(EncAt(b, i)) <==> i / 4 * 3 + i % 4 <= |b|
    ensures Val(EncAt(b, i)) == if IsSym(EncAt(b, i)) then Sextet(b, i / 4, i % 4) else 0
  {
    if i / 4 * 3 + i % 4 <= |b| {
      ValSym(Sextet(b, i / 4, i % 4));
    }
  }

  lemma EncodeValid(b: seq<byte>)
    ensures IsValid(Encode(b)) && DecLen(Encode(b)) == |b|
  {
    var s := Encode(b);
    var n := |s|;
    if n > 0 {
      EncAtKind(b, n - 1);
      EncAtKind(b, n - 2);
    }
    forall i | 0 <= i < n - Pads(s) ensures IsSym(s[i]) { EncAtKind(b, i); }
  }

  lemma OctetBits(x: byte, y: byte, z: byte)
    ensures ((x >> 2) << 2) | ((((x << 4) & 0x3f) | (y >> 4)) >> 4) == x
    ensures ((((x << 4) & 0x3f) | (y >> 4)) << 4) | ((((y << 2) & 0x3f) | (z >> 6)) >> 2) == y
    ensures ((((y << 2) & 0x3f) | (z >> 6)) << 6) | (z & 0x3f) == z
  {}

  /** Three bytes survive four six-bit values. */
  lemma OctetOfSextets(b: seq<byte>, ts: seq<byte>, q: nat, r: nat)
    requires r < 3 && 3 * q + r < |b| && 4 * q + r + 2 <= |ts|
    requires forall m :: 0 <= m < r + 2 ==> ts[4 * q + m] == Sextet(b, q, m)
    ensures Octet(ts, q, r) == b[3 * q + r]
  {
    hide Val, Sym, Rank, IsSym;
    OctetBits(ByteAt(b, 3 * q), ByteAt(b, 3 * q + 1), ByteAt(b, 3 * q + 2));
    assert ts[4 * q + r] == Sextet(b, q, r);
    assert ts[4 * q + r + 1] == Sextet(b, q, r + 1);
  }

  lemma OctetOfEncode(b: seq<byte>, q: nat, r: nat)
    requires r < 3 && 3 * q + r < |b|
    ensures 4 * q + r + 2 <= EncLen(|b|) && Octet(Vals(Encode(b)), q, r) == b[3 * q + r]
  {
    hide Val, Sym, Rank, IsSym;
    var ts := Vals(Encode(b));
    forall m | 0 <= m < r + 2 ensures ts[4 * q + m] == Sextet(b, q, m) {
      EncAtKind(b, 4 * q + m);
    }
    OctetOfSextets(b, ts, q, r);
  }

  /** Decoding undoes encoding, for every byte string. */
  lemma DecodeEncode(b: seq<byte>)
    ensures IsValid(Encode(b)) && Decoded(Encode(b)) == b
  {
    hide Val, Sym, Rank, IsSym;
    EncodeValid(b);
    forall j | 0 <= j < |b| ensures Decoded(Encode(b))[j] == b[j] {
      OctetOfEncode(b, j / 3, j % 3);
    }
  }

  /** The bits of symbol i that some byte holds. */
  function UsedBits(s: string, i: nat): (m: byte)
    ensures m < 64
  {
    if i + 1 < |s| - Pads(s) || Pads(s) == 0 then 0x3f else if Pads(s) == 1 then 0x3c else 0x30
  }

  /** Section 3.5 of RFC 4648: the text with the unused bits of its last symbol set to zero. */
  function Canonical(s: string): (r: string)
    ensures |r| == |s|
  {
    var last := |s| - Pads(s) - 1;
    if Pads(s) == 0 || last < 0 then s
    else s[last := Sym(Val(s[last]) & UsedBits(s, last))]
  }

  lemma SextetBits(t: byte, u: byte, v: byte, w: byte)
    requires t < 64 && u < 64 && v < 64 && w < 64
    ensures ((t << 2) | (u >> 4)) >> 2 == t
    ensures ((((t << 2) | (u >> 4)) << 4) & 0x3f) | (((u << 4) | (v >> 2)) >> 4) == u
    ensures ((((u << 4) | (v >> 2)) << 2) & 0x3f) | (((v << 6) | w) >> 6) == v
    ensures ((v << 6) | w) & 0x3f == w
    ensures ((((t << 2) | (u >> 4)) << 4) & 0x3f) | (0 >> 4) == u & 0x30
    ensures ((((u << 4) | (v >> 2)) << 2) & 0x3f) | (0 >> 6) == v & 0x3c
  {}

  /** Four six-bit values survive three bytes, up to the bits no byte holds. */
  lemma SextetOfOctets(ts: seq<byte>, n: nat, q: nat, r: nat)
    requires Carriers(n) <= |ts| && forall m :: 0 <= m < |ts| ==> ts[m] < 64
    requires r < 4 && 3 * q < n && 3 * q + r <= n
    ensures 4 * q + r < Carriers(n)
    ensures Sextet(Octets(ts, n), q, r) ==
            ts[4 * q + r] & if 3 * q + r < n || r == 3 then 0x3f else if r == 2 then 0x3c else 0x30
  {
    hide Octets, Carriers, ByteAt;
    var m := n - 3 * q;
    CarriersAt(n, q);
    var v := if m > 1 then ts[4 * q + 2] else 0;
    var w := if m > 2 then ts[4 * q + 3] else 0;
    SextetBits(ts[4 * q], ts[4 * q + 1], v, w);
    ByteOfOctets(ts, n, q, 0);
    ByteOfOctets(ts, n, q, 1);
    ByteOfOctets(ts, n, q, 2);
  }

  /** A due byte has its symbol in the text; once no byte is due, every carrier is read. */
  lemma SymbolsLeft(s: string, q: nat, r: nat)
    requires |s| % 4 == 0 && r < 4 && 3 * q + (if r == 0 then 0 else r - 1) <= DecLen(s)
    ensures Carriers(DecLen(s)) <= |s|
    ensures 3 * q + (if r == 0 then 0 else r - 1) < DecLen(s) ==> 4 * q + r < Carriers(DecLen(s))
    ensures 3 * q + (if r == 0 then 0 else r - 1) == DecLen(s) && r != 1 ==> 4 * q + r == Carriers(DecLen(s))
  {}

  lemma CarriersAt(n: nat, q: nat)
    requires 3 * q < n
    ensures 4 * q + (if n - 3 * q < 3 then n - 3 * q + 1 else 4) <= Carriers(n)
  {}

  lemma ByteOfOctets(ts: seq<byte>, n: nat, q: nat, r: nat)
    requires Carriers(n) <= |ts| && r < 3
    ensures ByteAt(Octets(ts, n), 3 * q + r) == if 3 * q + r < n then Octet(ts, q, r) else 0
  {
    assert (3 * q + r) / 3 == q && (3 * q + r) % 3 == r;
  }

  lemma ValidShape(s: string)
    requires IsValid(s)
    ensures Decodable(s) && DecLen(s) == |s| / 4 * 3 - Pads(s) && Carriers(DecLen(s)) == |s| - Pads(s)
    ensures EncLen(DecLen(s)) == |s|
    ensures forall i :: |s| - Pads(s) <= i < |s| ==> s[i] == '='
  {
    DecodableIffValid(s);
  }

  lemma SextetOfDecoded(s: string, i: nat)
    requires IsValid(s) && i < |s| - Pads(s)
    ensures i / 4 * 3 + i % 4 <= DecLen(s)
    ensures Sextet(Decoded(s), i / 4, i % 4) == Val(s[i]) & UsedBits(s, i)
  {
    hide Val, Sym, Rank, IsSym;
    ValidShape(s);
    var n, q, r := DecLen(s), i / 4, i % 4;
    assert 3 * q + r <= n && 3 * q < n && 4 * q + r == i;
    SextetOfOctets(Vals(s), n, q, r);
  }

  lemma CanonicalAt(s: string, i: nat)
    requires IsValid(s) && i < |s|
    ensures Canonical(s)[i] == if i < |s| - Pads(s) then Sym(Val(s[i]) & UsedBits(s, i)) else '='
  {
    ValidShape(s);
    if i < |s| - Pads(s) {
      KeptSym(Val(s[i]), s[i]);
    }
  }

  lemma EncOfDecoded(s: string, i: nat)
    requires IsValid(s) && i < |s|
    ensures EncAt(Decoded(s), i) == Canonical(s)[i]
  {
    hide Val, Sym, Rank, IsSym;
    CanonicalAt(s, i);
    if i < |s| - Pads(s) {
      SextetOfDecoded(s, i);
    } else {
      ValidShape(s);
    }
  }

  lemma KeptSym(t: byte, c: char)
    requires IsSym(c) && t == Val(c)
    ensures t & 0x3f == t && t & 0x3c < 64 && t & 0x30 < 64
    ensures Sym(t & 0x3f) == c
  {
    SymVal(c);
  }

  /** Re-encoding a decoded text yields its canonical form, hence the text itself when it
      was canonical. */
  lemma EncodeDecode(s: string)
    requires IsValid(s)
    ensures Encode(Decoded(s)) == Canonical(s)
  {
    ValidShape(s);
    forall i | 0 <= i < |s| ensures Encode(Decoded(s))[i] == Canonical(s)[i] {
      EncOfDecoded(s, i);
    }
  }

  /** Only canonical texts are produced. */
  lemma EncodeIsCanonical(b: seq<byte>)
    ensures Canonical(Encode(b)) == Encode(b)
  {
    DecodeEncode(b);
    EncodeDecode(Encode(b));
  }

  /** So decoding inverts section 4 of RFC 4648 itself, and on valid text section 4 inverts
      decoding up to the unused bits. */
  lemma {:induction false} DecodeRfc(b: seq<byte>)
    ensures IsValid(RfcEncode(b)) && Decoded(RfcEncode(b)) == b
  {
    hide Decoded, RfcEncode, DecLen, Val;
    EncodeIsRfc(b);
    DecodeEncode(b);
  }

  lemma {:induction false} RfcDecode(s: string)
    requires IsValid(s)
    ensures RfcEncode(Decoded(s)) == Canonical(s)
  {
    hide Decoded, RfcEncode, Canonical, DecLen, Val;
    EncodeIsRfc(Decoded(s));
    EncodeDecode(s);
  }

  // ----- The loops of the source -----

  lemma EncGroup(b: seq<byte>, q: nat)
    requires 3 * q + 2 < |b|
    ensures EncAt(b, 4 * q) == Sym(b[3 * q] >> 2)
    ensures EncAt(b, 4 * q + 1) == Sym((b[3 * q + 1] >> 4) | ((b[3 * q] << 4) & 0x3f))
    ensures EncAt(b, 4 * q + 2) == Sym((b[3 * q + 2] >> 6) | ((b[3 * q + 1] << 2) & 0x3f))
    ensures EncAt(b, 4 * q + 3) == Sym(b[3 * q + 2] & 0x3f)
  {}

  lemma EncTail(b: seq<byte>, q: nat)
    requires |b| / 3 == q && |b| % 3 != 0
    ensures EncAt(b, 4 * q) == Sym(b[3 * q] >> 2)
    ensures |b| % 3 == 1 ==> EncAt(b, 4 * q + 1) == Sym((b[3 * q] << 4) & 0x3f) && EncAt(b, 4 * q + 2) == '='
    ensures |b| % 3 == 2 ==> EncAt(b, 4 * q + 1) == Sym((b[3 * q + 1] >> 4) | ((b[3 * q] << 4) & 0x3f))
                             && EncAt(b, 4 * q + 2) == Sym((b[3 * q + 1] << 2) & 0x3f)
    ensures EncAt(b, 4 * q + 3) == '='
  {}

  /** pppoat_base64_enc */
  method Enc(buf: seq<byte>, result: array<char>)
    requires result.Length == EncLen(|buf|)
    modifies result
    ensures result[..] == Encode(buf)
  {
    hide Sym, Sextet, EncAt;
    var i, p, b := 0, 0, 0;
    while i < |buf| / 3
      invariant 0 <= i <= |buf| / 3 && p == 4 * i && b == 3 * i
      invariant forall k :: 0 <= k < p ==> result[k] == EncAt(buf, k)
    {
      EncGroup(buf, i);
      result[p] := Sym(buf[b] >> 2);
      var t := (buf[b] << 4) & 0x3f;
      result[p + 1] := Sym((buf[b + 1] >> 4) | t);
      t := (buf[b + 1] << 2) & 0x3f;
      result[p + 2] := Sym((buf[b + 2] >> 6) | t);
      result[p + 3] := Sym(buf[b + 2] & 0x3f);
      i, p, b := i + 1, p + 4, b + 3;
    }
    if |buf| % 3 != 0 {
      EncTail(buf, i);
      result[p] := Sym(buf[b] >> 2);
      var t := (buf[b] << 4) & 0x3f;
      p, b := p + 1, b + 1;
      if |buf| % 3 == 2 {
        result[p] := Sym((buf[b] >> 4) | t);
        result[p + 1] := Sym((buf[b] << 2) & 0x3f);
        p := p + 2;
      } else {
        result[p] := Sym(t);
        p := p + 1;
      }
      var n := 0;
      while n < 3 - |buf| % 3
        invariant 0 <= n <= 3 - |buf| % 3 && p + 3 - |buf| % 3 - n == result.Length
        invariant forall k :: 0 <= k < p ==> result[k] == EncAt(buf, k)
      {
        result[p] := '=';
        n, p := n + 1, p + 1;
      }
    }
  }

  lemma DecodedAt(s: string, q: nat)
    requires |s| % 4 == 0
    ensures 3 * q < DecLen(s) ==>
              Decoded(s)[3 * q] == (Val(s[4 * q]) << 2) | (Val(s[4 * q + 1]) >> 4)
    ensures 3 * q + 1 < DecLen(s) ==>
              Decoded(s)[3 * q + 1] == (Val(s[4 * q + 1]) << 4) | (Val(s[4 * q + 2]) >> 2)
    ensures 3 * q + 2 < DecLen(s) ==>
              Decoded(s)[3 * q + 2] == (Val(s[4 * q + 2]) << 6) | Val(s[4 * q + 3])
  {
    hide Val, Sym, Rank, IsSym;
    assert (3 * q) / 3 == q && (3 * q + 1) / 3 == q && (3 * q + 2) / 3 == q;
    assert (3 * q) % 3 == 0 && (3 * q + 1) % 3 == 1 && (3 * q + 2) % 3 == 2;
  }

  /** pppoat_base64_dec: 0 and the decoded bytes, or EINVAL at the first character that is
      no symbol. */
  method Dec(s: string, result: array<byte>) returns (rc: int)
    requires CString(s)
    requires |s| % 4 == 0 && result.Length == DecLen(s)
    modifies result
    ensures rc == if IsValid(s) then 0 else -22
    ensures rc == 0 ==> result[..] == Decoded(s)
  {
    hide Val, Sym, Rank, IsSym, Decoded, Octet, Octets, Vals, Carriers, DecLen, Pads, IsValid, CString;
    DecodableIffValid(s);
    var rlen := DecLen(s);
    var i, j := 0, 0;
    ghost var q, r := 0, 0;
    SymbolsLeft(s, 0, 0);
    while j < rlen
      invariant r < 4 && i == 4 * q + r && j == 3 * q + (if r == 0 then 0 else r - 1) && j <= rlen
      invariant r == 1 ==> j < rlen
      invariant i <= Carriers(rlen) && (if j < rlen then i < Carriers(rlen) else i == Carriers(rlen))
      invariant r == 1 && j < rlen ==> result[j] == Val(s[i - 1]) << 2
      invariant r == 2 && j < rlen ==> result[j] == Val(s[i - 1]) << 4
      invariant r == 3 && j < rlen ==> result[j] == Val(s[i - 1]) << 6
      invariant forall k :: 0 <= k < i ==> IsSym(s[k])
      invariant forall k :: 0 <= k < j ==> result[k] == Decoded(s)[k]
      decreases Carriers(rlen) - i
    {
      if !IsSym(s[i]) {
        return EINVAL;
      }
      var t := Val(s[i]);
      if r > 0 {
        DecodedAt(s, q);
      }
      assert i % 4 == r;
      match i % 4 {
      case 0 =>
        result[j] := t << 2;
      case 1 =>
        result[j] := result[j] | (t >> 4);
        j := j + 1;
        if j < rlen {
          result[j] := t << 4;
        }
      case 2 =>
        result[j] := result[j] | (t >> 2);
        j := j + 1;
        if j < rlen {
          result[j] := t << 6;
        }
      case _ =>
        result[j] := result[j] | t;
        j := j + 1;
      }
      i := i + 1;
      q, r := if r == 3 then q + 1 else q, if r == 3 then 0 else r + 1;
      SymbolsLeft(s, q, r);
    }
    return 0;
  }

  /** pppoat_base64_is_valid */
  method CheckValid(s: string) returns (valid: bool)
    requires CString(s)
    ensures valid == IsValid(s)
  {
    valid := |s| % 4 == 0;
    if valid {
      var len := |s|;
      if len != 0 {
        len := if s[len - 1] == '=' then len - 1 else len;
        len := if s[len - 1] == '=' then len - 1 else len;
      }
      var i := 0;
      while valid && i < len
        invariant 0 <= i <= len
        invariant valid <==> forall k :: 0 <= k < i ==> IsSym(s[k])
      {
        valid := IsSym(s[i]);
        i := i + 1;
      }
    }
  }

  /** pppoat_base64_enc_new */
  method EncNew(buf: seq<byte>) returns (s: string)
    ensures s == Encode(buf)
  {
    var result := new char[EncLen(|buf|)];
    Enc(buf, result);
    s := result[..];
  }

  /** pppoat_base64_dec_new */
  method DecNew(s: string) returns (r: Result<seq<byte>, int>)
    requires CString(s) && |s| % 4 == 0
    ensures r == if IsValid(s) then Ok(Decoded(s)) else Err(-22)
  {
    var valid := CheckValid(s);
    if !valid {
      return Err(EINVAL);
    }
    var result := new byte[DecLen(s)];
    var rc := Dec(s, result);
    r := Ok(result[..]);
  }
}
