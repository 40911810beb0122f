/** The messages of src/modules/tp_http.c as text: what each sender writes and what the
    pointer-walking search of each receiver finds in it. */
module HttpText {
  import opened Wrappers
  import opened CText
  import opened Base64

  const CLIENT_SIZE: string := "GET /index.php?s="
  const SET_COOKIE: string := "Set-Cookie: "
  const AUTH: string := "Authorization: "
  const CONTENT_LENGTH: string := "Content-Length:"

  // ----- Sizes in network byte order -----

  function ByteOf(n: nat): byte { (n % 256) as byte }

  /** htonl of the low 32 bits. */
  function Be32(n: nat): (b: seq<byte>)
    ensures |b| == 4
  {
    [ByteOf(n / 0x100_0000), ByteOf(n / 0x1_0000), ByteOf(n / 0x100), ByteOf(n)]
  }

  /** ntohl */
  function FromBe32(b: seq<byte>): nat
    requires |b| == 4
  {
    ((NatOf(b[0]) * 256 + NatOf(b[1])) * 256 + NatOf(b[2])) * 256 + NatOf(b[3])
  }

  lemma SmallByte(m: int)
    requires 0 <= m < 256
    ensures NatOf(ByteOf(m)) == m
  {}

  lemma ByteOfMod(n: nat)
    ensures ByteOf(n) == ByteOf(n % 256)
  {}

  lemma ByteOfAsNat(n: nat)
    ensures NatOf(ByteOf(n)) == n % 256
  {
    hide ByteOf, NatOf;
    ByteOfMod(n);
    SmallByte(n % 256);
  }

  /** A size survives the wire exactly modulo 2^32. */
  lemma SizeRoundTrip(n: nat)
    ensures FromBe32(Be32(n)) == n % 0x1_0000_0000
  {
    hide ByteOf, NatOf;
    ByteOfAsNat(n / 0x100_0000);
    ByteOfAsNat(n / 0x1_0000);
    ByteOfAsNat(n / 0x100);
    ByteOfAsNat(n);
    var m := n % 0x1_0000_0000;
    var q := n / 0x1_0000_0000;
    assert n / 0x100 / 0x100 == n / 0x1_0000;
    assert n / 0x1_0000 / 0x100 == n / 0x100_0000;
    assert n / 0x100_0000 / 0x100 == q;
  }

  // ----- Messages sent -----

  function UserAgent(): string {
    "User-Agent: Mozilla/5.0 " + "(X11; Linux x86_64; " + "rv:12.0) Gecko/20100101 " + "Firefox/12.0"
  }

  function DefaultPage(): string {
    "<html><head><title>Default " + "page</title></head><body>" + "<center><h1>Server works!</h1>"
        + "</center></body></html>\r\n"
  }

  /** Header lines, the blank line, and what follows it. */
  function Message(lines: seq<string>, tail: string): string {
    if lines == [] then CRLF + tail else lines[0] + CRLF + Message(lines[1..], tail)
  }

  function RequestLine(size: Option<nat>): string {
    "GET /index.php" + (if size.Some? then "?s=" + Encode(Be32(size.value)) else "") + " HTTP/1.1"
  }

  function AuthLine(frag: seq<byte>): string { AUTH + Encode(frag) }

  /** One fragment from the client, with the packet size when it is the first one. */
  function ClientText(host: string, size: Option<nat>, frag: seq<byte>): string {
    Message([RequestLine(size), "Host: " + host + ":8080", UserAgent(), AuthLine(frag)], "")
  }

  function SizeText(size: Option<nat>): Option<string> {
    if size.Some? then Some(Encode(Be32(size.value))) else None
  }

  function CookieHead(h: Option<string>): string {
    SET_COOKIE + (if h.Some? then "H=" + h.value + "; " else "") + "ID="
  }

  function CookieLine(h: Option<string>, id: string): string {
    CookieHead(h) + id + "; Max-Age=3600; Version=1"
  }

  /** One fragment from the server. */
  function ServerText(size: Option<nat>, frag: seq<byte>): string {
    Message(["HTTP/1.1 200 OK", CookieLine(SizeText(size), Encode(frag)), "Server: nginx/0.8.54",
        "Content-Type: text/html", "Content-Length: 107"],
            DefaultPage())
  }

  function GetText(): string { Message(["GET / HTTP/1.1"], "") }

  function RespText(): string { Message(["HTTP/1.1 200 OK"], "") }

  lemma PageLength()
    ensures |DefaultPage()| == 107
  {}

  /** The two empty messages, as bytes. */
  lemma BareTexts()
    ensures GetText() == "GET / HTTP/1.1\r\n\r\n"
    ensures RespText() == "HTTP/1.1 200 OK\r\n\r\n"
  {}

  lemma NatOfByte(x: byte)
    ensures NatOf(x) == x as nat
  {}

  lemma ByteOfNat(x: byte)
    ensures NatOf(x) < 256 && ByteOf(NatOf(x)) == x
  {
    var n := x as nat;
    assert n < 256 && n % 256 == n;
    assert n as byte == x;
  }

  lemma Peel(hi: nat, lo: nat)
    requires lo < 256
    ensures (hi * 256 + lo) / 256 == hi && (hi * 256 + lo) % 256 == lo
  {}

  lemma DivideTwice(n: nat)
    ensures n / 0x1_0000 == n / 256 / 256 && n / 0x100_0000 == n / 256 / 256 / 256
  {}

  /** Network byte order, position by position: the four bytes of a size, the first one most
      significant. */
  lemma SizeBytes(b: seq<byte>)
    requires |b| == 4
    ensures var n := NatOf(b[0]) * 0x100_0000 + NatOf(b[1]) * 0x1_0000 + NatOf(b[2]) * 0x100 + NatOf(b[3]);
            Be32(n) == b && FromBe32(b) == n
  {
    hide ByteOf, NatOf;
    ByteOfNat(b[0]); ByteOfNat(b[1]); ByteOfNat(b[2]); ByteOfNat(b[3]);
    var n1 := NatOf(b[0]) * 256 + NatOf(b[1]);
    var n2 := n1 * 256 + NatOf(b[2]);
    var n := n2 * 256 + NatOf(b[3]);
    Peel(NatOf(b[0]), NatOf(b[1])); Peel(n1, NatOf(b[2])); Peel(n2, NatOf(b[3]));
    DivideTwice(n);
    ByteOfMod(n1); ByteOfMod(n2); ByteOfMod(n);
  }

  // ----- Messages received, side channel -----

  /** An assertion of the source that fails, or a C string search whose NULL result is used. */
  datatype Fault = HalfBuilt | NoPacket | Malformed | Overrun

  /** The receiver while it walks over the lines: pkt, thc_recv_offset and size. */
  datatype Rx = Rx(pkt: Option<seq<byte>>, off: nat, size: nat)

  /** A buffer of n bytes from the pool, with whatever its last user left in it. */
  function Recycled(n: nat, junk: nat -> byte): (b: seq<byte>)
    ensures |b| == n
  {
    seq(n, i requires 0 <= i < n => junk(i))
  }

  /** The packet size in a Base64 text. */
  function ParseSize(text: string): Result<nat, Fault> {
    if |text| % 4 == 0 && IsValid(text) && DecLen(text) == 4 then Ok(FromBe32(Decoded(text))) else Err(Malformed)
  }

  /** memcpy of a decoded fragment to the packet under assembly. */
  function Store(p: Rx, text: string): Result<Rx, Fault> {
    if p.pkt.None? then Err(NoPacket)
    else if |text| % 4 != 0 || !IsValid(text) then Err(Malformed)
    else
      var res := Decoded(text);
      if p.off + |res| > |p.pkt.value| then Err(Overrun)
      else Ok(p.(pkt := Some(Splice(p.pkt.value, p.off, res)), size := |res|))
  }

  function StoreOn(r: Result<Rx, Fault>, text: string): Result<Rx, Fault> {
    match r
    case Err(f) => Err(f)
    case Ok(p) => Store(p, text)
  }

  function Splice(b: seq<byte>, off: nat, part: seq<byte>): (r: seq<byte>)
    requires off + |part| <= |b|
    ensures |r| == |b|
    ensures forall k {:trigger r[k]} :: 0 <= k < |b| ==> r[k] == if off <= k < off + |part| then part[k - off] else b[k]
  {
    b[..off] + part + b[off + |part|..]
  }

  /** A new packet of the announced size. */
  function Begin(p: Rx, text: string, junk: nat -> byte): Result<Rx, Fault> {
    match ParseSize(text)
    case Err(f) => Err(f)
    case Ok(n) => Ok(Rx(Some(Recycled(n, junk)), 0, 0))
  }

  /** The text from start up to the next terminator. */
  function Upto(rest: string, start: nat, term: string): Result<string, Fault>
    requires start <= |rest| && term != ""
  {
    match Find(rest[start..], term)
    case None => Err(Malformed)
    case Some(n) => Ok(rest[start..][..n])
  }

  function ParseRequest(rest: string, half: bool, p: Rx, junk: nat -> byte): Result<Rx, Fault> {
    match Find(rest, "?s=")
    case None => Err(Malformed)
    case Some(start) =>
      if half then Err(HalfBuilt)
      else
        match Upto(rest, start + 3, " ")
        case Err(f) => Err(f)
        case Ok(text) => Begin(p, text, junk)
  }

  /** Whether a cookie field starts in the current line. */
  predicate InLine(rest: string, field: string)
    requires field != ""
  {
    var start, end := Find(rest, field), Find(rest, CRLF);
    start.Some? && end.Some? && start.value < end.value
  }

  function ParseCookie(rest: string, p: Rx, junk: nat -> byte): Result<Rx, Fault> {
    var p' :=
      if !InLine(rest, " H=") then Ok(p)
      else
        match Upto(rest, Find(rest, " H=").value + 3, ";")
        case Err(f) => Err(f)
        case Ok(text) => Begin(p, text, junk);
    if p'.Err? || !InLine(rest, " ID=") then p'
    else
      match Upto(rest, Find(rest, " ID=").value + 4, ";")
      case Err(f) => Err(f)
      case Ok(text) => Store(p'.value, text)
  }

  function ParseAuth(rest: string, p: Rx): Result<Rx, Fault>
    requires AUTH <= rest
  {
    match Upto(rest, |AUTH|, CRLF)
    case Err(f) => Err(f)
    case Ok(text) => Store(p, text)
  }

  function ParseLine(rest: string, half: bool, p: Rx, junk: nat -> byte): Result<Rx, Fault> {
    if CLIENT_SIZE <= rest then ParseRequest(rest, half, p, junk)
    else if SET_COOKIE <= rest then ParseCookie(rest, p, junk)
    else if AUTH <= rest then ParseAuth(rest, p)
    else Ok(p)
  }

  /** The search loop: rest is the text at ptr, left is body - ptr. */
  function Scan(rest: string, left: int, half: bool, p: Rx, junk: nat -> byte): Result<Rx, Fault>
    decreases |rest|
  {
    if left <= 0 then Ok(p)
    else
      match ParseLine(rest, half, p, junk)
      case Err(f) => Err(f)
      case Ok(p') =>
        match Find(rest, CRLF)
        case None => Ok(p')
        case Some(n) => Scan(rest[n + 2..], left - n - 2, half, p', junk)
  }

  // ----- The search loop reads header line after header line -----

  ghost predicate Header(lines: seq<string>) {
    forall i :: 0 <= i < |lines| ==> Unbroken(lines[i]) && lines[i] != ""
  }

  /** Position of the blank line, relative to the first of the lines. */
  function HeadEnd(lines: seq<string>): int {
    if lines == [] then -2 else |lines[0]| + 2 + HeadEnd(lines[1..])
  }

  ghost function ReadLines(lines: seq<string>, tail: string, half: bool, p: Rx, junk: nat -> byte): Result<Rx, Fault> {
    if lines == [] then Ok(p)
    else
      match ParseLine(Message(lines, tail), half, p, junk)
      case Err(f) => Err(f)
      case Ok(p') => ReadLines(lines[1..], tail, half, p', junk)
  }

  ghost function ReadOn(r: Result<Rx, Fault>, lines: seq<string>, tail: string, half: bool,
                        junk: nat -> byte): Result<Rx, Fault> {
    match r
    case Err(f) => Err(f)
    case Ok(p) => ReadLines(lines, tail, half, p, junk)
  }

  lemma {:induction false} BlankAtHeadEnd(lines: seq<string>, tail: string)
    requires Header(lines) && lines != []
    ensures HeadEnd(lines) > 0 && Find(Message(lines, tail), BLANK) == Some(HeadEnd(lines))
  {
    hide Find, At;
    var rest := lines[1..];
    if rest == [] {
      FindBlankHere(lines[0], tail);
      assert Message(lines, tail) == lines[0] + CRLF + CRLF + tail;
    } else {
      assert Unbroken(rest[0]) && rest[0] == lines[1];
      BlankAtHeadEnd(rest, tail);
      NoLineEndFirst(rest[0], Message(rest[1..], tail));
      FindBlankLater(lines[0], Message(rest, tail));
    }
  }

  lemma ScanStep(line: string, rest: string, left: int, half: bool, p: Rx, junk: nat -> byte)
    requires Unbroken(line) && left > 0
    ensures Scan(line + CRLF + rest, left, half, p, junk) ==
            match ParseLine(line + CRLF + rest, half, p, junk)
            case Err(f) => Err(f)
            case Ok(p') => Scan(rest, left - |line| - 2, half, p', junk)
  {
    hide ParseLine, Find;
    FindLineEnd(line, rest);
    assert (line + CRLF + rest)[|line| + 2..] == rest;
  }

  /** On a well-formed message the pointer walk is a fold over its header lines. */
  lemma {:induction false} ScanReadsLines(lines: seq<string>, tail: string, half: bool, p: Rx, junk: nat -> byte)
    requires Header(lines)
    ensures Scan(Message(lines, tail), HeadEnd(lines), half, p, junk) == ReadLines(lines, tail, half, p, junk)
  {
    hide ParseLine, Find;
    if lines != [] {
      assert HeadEnd(lines) > 0 by { BlankAtHeadEnd(lines, tail); }
      ScanStep(lines[0], Message(lines[1..], tail), HeadEnd(lines), half, p, junk);
      var r := ParseLine(Message(lines, tail), half, p, junk);
      if r.Ok? {
        ScanReadsLines(lines[1..], tail, half, r.value, junk);
      }
    }
  }

  // ----- What the lines mean -----

  /** The receiver after an optional announcement of a new packet. */
  function Announced(size: Option<nat>, p: Rx, junk: nat -> byte): Rx {
    if size.Some? then Rx(Some(Recycled(size.value % 0x1_0000_0000, junk)), 0, 0) else p
  }

  function Copied(p: Rx, frag: seq<byte>): Result<Rx, Fault> {
    if p.pkt.None? then Err(NoPacket)
    else if p.off + |frag| > |p.pkt.value| then Err(Overrun)
    else Ok(p.(pkt := Some(Splice(p.pkt.value, p.off, frag)), size := |frag|))
  }

  /** What a message with an optional size and a fragment is meant to do to the receiver. */
  function Deliver(size: Option<nat>, frag: seq<byte>, p: Rx, junk: nat -> byte): Result<Rx, Fault> {
    Copied(Announced(size, p, junk), frag)
  }

  /** Text without any character the searches look for. */
  ghost predicate Undelimited(s: string) {
    forall i :: 0 <= i < |s| ==> s[i] != ' ' && s[i] != ';' && s[i] != '\r' && s[i] != '\0'
  }

  lemma EncodePlain(b: seq<byte>)
    ensures Undelimited(Encode(b)) && Plain(Encode(b))
  {
    hide Sym, Sextet, Rank;
    forall i | 0 <= i < |Encode(b)|
      ensures Encode(b)[i] != ' ' && Encode(b)[i] != ';' && Encode(b)[i] != '\r' && Encode(b)[i] != '\0'
    {
      EncAtKind(b, i);
      if IsSym(EncAt(b, i)) {
        SymsArePlain(EncAt(b, i));
      }
    }
  }

  lemma ParseSizeEncode(n: nat)
    ensures ParseSize(Encode(Be32(n))) == Ok(n % 0x1_0000_0000)
  {
    hide Encode, Decoded, IsValid, DecLen, Be32, FromBe32;
    DecodeEncode(Be32(n));
    EncodeValid(Be32(n));
    ValidWhole(Encode(Be32(n)));
    SizeRoundTrip(n);
  }

  lemma ValidWhole(s: string)
    requires IsValid(s)
    ensures |s| % 4 == 0
  {}

  lemma StoreEncode(p: Rx, frag: seq<byte>)
    ensures Store(p, Encode(frag)) == Copied(p, frag)
  {
    hide Encode, Decoded, IsValid;
    DecodeEncode(frag);
    ValidWhole(Encode(frag));
  }

  lemma BeginEncode(n: nat, p: Rx, junk: nat -> byte)
    ensures Begin(p, Encode(Be32(n)), junk) == Ok(Announced(Some(n), p, junk))
  {
    hide Encode, ParseSize;
    ParseSizeEncode(n);
  }

  /** The text between a known prefix and the first terminator after it. */
  lemma UptoIs(a: string, text: string, term: string, rest: string)
    requires term != "" && forall i :: 0 <= i < |text| ==> text[i] != term[0]
    ensures Upto(a + text + term + rest, |a|, term) == Ok(text)
  {
    var s := a + text + term + rest;
    assert s[|a|..] == text + term + rest;
    assert (text + term + rest)[|text|..] == term + rest;
    FindByFirst(text + term + rest, term, |text|);
    assert (text + term + rest)[..|text|] == text;
  }

  /** The GET branch on a request line with any text for the size: a fault if a packet is half
      built, otherwise a packet of the size that four bytes in network order announce, or a fault
      if the text is no four bytes. */
  lemma RequestTextMeans(text: string, rest: string, half: bool, p: Rx, junk: nat -> byte)
    requires Undelimited(text)
    ensures var r := ParseLine("GET /index.php?s=" + text + " HTTP/1.1" + CRLF + rest, half, p, junk);
            if half then r == Err(HalfBuilt)
            else if !IsValid(text) || DecLen(text) != 4 then r == Err(Malformed)
            else
              var b := Decoded(text);
              var n := NatOf(b[0]) * 0x100_0000 + NatOf(b[1]) * 0x1_0000 + NatOf(b[2]) * 0x100 + NatOf(b[3]);
              r == Ok(Rx(Some(Recycled(n, junk)), 0, 0))
  {
    hide Decoded, IsValid, DecLen, NatOf, Recycled, Find;
    var s := "GET /index.php?s=" + text + " HTTP/1.1" + CRLF + rest;
    assert s == CLIENT_SIZE + text + " " + ("HTTP/1.1" + CRLF + rest);
    assert s[14..] == "?s=" + text + " " + ("HTTP/1.1" + CRLF + rest);
    assert s[..14] == "GET /index.php";
    FindByFirst(s, "?s=", 14);
    UptoIs(CLIENT_SIZE, text, " ", "HTTP/1.1" + CRLF + rest);
    if IsValid(text) {
      ValidWhole(text);
    }
  }

  lemma RequestLineMeans(n: nat, rest: string, p: Rx, junk: nat -> byte)
    ensures ParseLine(RequestLine(Some(n)) + CRLF + rest, false, p, junk) == Ok(Announced(Some(n), p, junk))
  {
    hide Encode, Be32, Decoded, IsValid, DecLen, NatOf, Recycled, ParseLine;
    var b := Be32(n);
    EncodePlain(b);
    DecodeEncode(b);
    EncodeValid(b);
    RequestTextMeans(Encode(b), rest, false, p, junk);
    SizeRoundTrip(n);
    assert RequestLine(Some(n)) == "GET /index.php?s=" + Encode(b) + " HTTP/1.1";
  }

  /** Storing a fragment succeeds if and only if there is a packet, the text is valid and the
      bytes fit; then exactly the bytes at the offset change. */
  lemma StoreOutcome(p: Rx, text: string)
    ensures p.pkt.None? ==> Store(p, text) == Err(NoPacket)
    ensures p.pkt.Some? && !IsValid(text) ==> Store(p, text) == Err(Malformed)
    ensures p.pkt.Some? && IsValid(text) ==>
              var res, was := Decoded(text), p.pkt.value;
              if p.off + |res| > |was| then Store(p, text) == Err(Overrun)
              else
                var r := Store(p, text);
                && r.Ok? && r.value.pkt.Some? && r.value.off == p.off && r.value.size == |res|
                && |r.value.pkt.value| == |was|
                && forall k :: 0 <= k < |was| ==>
                     r.value.pkt.value[k] == if p.off <= k < p.off + |res| then res[k - p.off] else was[k]
  {
    hide Decoded, Splice;
  }

  lemma AuthLineMeans(frag: seq<byte>, rest: string, half: bool, p: Rx, junk: nat -> byte)
    ensures ParseLine(AuthLine(frag) + CRLF + rest, half, p, junk) == Copied(p, frag)
  {
    hide Encode, Store, Copied;
    EncodePlain(frag);
    StoreEncode(p, frag);
    var s := AuthLine(frag) + CRLF + rest;
    assert s[0] == 'A' && s[..|AUTH|] == AUTH;
    UptoIs(AUTH, Encode(frag), CRLF, rest);
  }

  lemma CookiePlain(h: Option<string>, id: string)
    requires Undelimited(id) && (h.Some? ==> Undelimited(h.value))
    ensures Plain(CookieLine(h, id))
  {
    if h.Some? {
      PlainConcat(SET_COOKIE + "H=", h.value);
      PlainConcat(SET_COOKIE + "H=" + h.value, "; ");
    }
    PlainConcat(CookieHead(h), id);
    PlainConcat(CookieHead(h) + id, "; Max-Age=3600; Version=1");
  }

  lemma FieldH(h: string, id: string, rest: string)
    requires Undelimited(h)
    ensures var s := CookieLine(Some(h), id) + CRLF + rest;
            Find(s, " H=") == Some(11) && Upto(s, 14, ";") == Ok(h)
  {
    var s := CookieLine(Some(h), id) + CRLF + rest;
    var after := " ID=" + id + "; Max-Age=3600; Version=1" + CRLF + rest;
    assert s == "Set-Cookie: H=" + h + ";" + after;
    assert s[11..] == " H=" + h + ";" + after;
    assert s[..11] == "Set-Cookie:";
    FindByFirst(s, " H=", 11);
    UptoIs("Set-Cookie: H=", h, ";", after);
  }

  lemma NoFieldH(id: string, rest: string, i: nat)
    requires Undelimited(id) && i < |CookieLine(None, id)|
    ensures !At(CookieLine(None, id) + CRLF + rest, i, " H=")
  {
    hide At;
    var s := CookieLine(None, id) + CRLF + rest;
    var head, end := "Set-Cookie: ID=", "; Max-Age=3600; Version=1";
    assert s == head + id + (end + CRLF + rest);
    if i == 11 {
      NotAtSecond(s, i, " H=");
    } else if i < |head| + |id| {
      assert s[i] == if i < |head| then head[i] else id[i - |head|];
      NotAt(s, i, " H=");
    } else {
      var k := i - |head| - |id|;
      assert s[i] == end[k];
      if end[k] != ' ' {
        NotAt(s, i, " H=");
      } else {
        assert s[i + 1] == end[k + 1];
        NotAtSecond(s, i, " H=");
      }
    }
  }

  lemma NoFieldIdBefore(h: Option<string>, rest: string, i: nat)
    requires (h.Some? ==> Undelimited(h.value)) && i < |CookieHead(h)| - 4
    ensures !At(CookieHead(h) + rest, i, " ID=")
  {
    hide At;
    var s := CookieHead(h) + rest;
    if i == 11 {
      NotAtSecond(s, i, " ID=");
    } else {
      NotAt(s, i, " ID=");
    }
  }

  lemma FindFieldId(h: Option<string>, rest: string)
    requires h.Some? ==> Undelimited(h.value)
    ensures Find(CookieHead(h) + rest, " ID=") == Some(|CookieHead(h)| - 4)
  {
    var s, start := CookieHead(h) + rest, |CookieHead(h)| - 4;
    forall i | 0 <= i < start ensures !At(s, i, " ID=") { NoFieldIdBefore(h, rest, i); }
    assert CookieHead(h)[start..] == " ID=";
    assert s[start..] == " ID=" + rest;
    FindIs(s, " ID=", start);
  }

  lemma FieldId(h: Option<string>, id: string, rest: string)
    requires Undelimited(id) && (h.Some? ==> Undelimited(h.value))
    ensures var s := CookieLine(h, id) + CRLF + rest;
            Find(s, " ID=") == Some(|CookieHead(h)| - 4) && Upto(s, |CookieHead(h)|, ";") == Ok(id)
  {
    hide CookieHead, Upto;
    var s, after := CookieLine(h, id) + CRLF + rest, " Max-Age=3600; Version=1" + CRLF + rest;
    assert s == CookieHead(h) + id + ";" + after;
    assert s == CookieHead(h) + (id + ";" + after);
    UptoIs(CookieHead(h), id, ";", after);
    FindFieldId(h, id + ";" + after);
  }

  lemma CookieStarts(h: Option<string>, id: string, rest: string)
    ensures var s := CookieLine(h, id) + CRLF + rest;
            && SET_COOKIE <= s && !(CLIENT_SIZE <= s)
            && 11 < |CookieLine(h, id)| && 4 <= |CookieHead(h)| <= |CookieLine(h, id)|
  {
    var s := CookieLine(h, id) + CRLF + rest;
    assert s[0] == 'S' && s[..|SET_COOKIE|] == SET_COOKIE;
  }

  lemma NotInLine(line: string, rest: string, field: string)
    requires Plain(line) && field != ""
    requires forall i :: 0 <= i < |line| ==> !At(line + CRLF + rest, i, field)
    ensures !InLine(line + CRLF + rest, field)
  {
    hide At;
    FindLineEnd(line, rest);
  }

  /** The cookie branch on a cookie line: an optional new packet, then the fragment. */
  lemma CookieLineMeans(h: Option<string>, id: string, rest: string, half: bool, p: Rx, junk: nat -> byte)
    requires Undelimited(id) && (h.Some? ==> Undelimited(h.value))
    ensures ParseLine(CookieLine(h, id) + CRLF + rest, half, p, junk) ==
            StoreOn(if h.Some? then Begin(p, h.value, junk) else Ok(p), id)
  {
    hide Begin, Store, Upto, Find, At, CookieLine, CookieHead;
    CookieStarts(h, id, rest);
    CookiePlain(h, id);
    FindLineEnd(CookieLine(h, id), rest);
    FieldId(h, id, rest);
    if h.Some? {
      FieldH(h.value, id, rest);
    } else {
      forall i | 0 <= i < |CookieLine(h, id)| ensures !At(CookieLine(h, id) + CRLF + rest, i, " H=") {
        NoFieldH(id, rest, i);
      }
      NotInLine(CookieLine(h, id), rest, " H=");
    }
  }

  // ----- Whole messages -----

  /** A line that is none of the three the search acts on. */
  ghost predicate Other(line: string) {
    && line != "" && line[0] != 'A'
    && (line[0] == 'S' ==> |line| > 2 && line[2] == 'r')
    && (line[0] == 'G' ==> |line| >= 14 && (line + CRLF)[14] != '?')
  }

  lemma ReadOther(line: string, more: seq<string>, tail: string, half: bool, p: Rx, junk: nat -> byte)
    requires Other(line)
    ensures ReadLines([line] + more, tail, half, p, junk) == ReadLines(more, tail, half, p, junk)
  {
    hide ParseRequest, ParseCookie, ParseAuth;
    var lines := [line] + more;
    assert lines[1..] == more;
    var s := line + CRLF + Message(more, tail);
    assert s == Message(lines, tail) && s[0] == line[0];
    assert line[0] == 'S' ==> s[2] == line[2];
    assert line[0] == 'G' ==> s[14] == (line + CRLF)[14];
  }

  lemma ReadOne(line: string, more: seq<string>, tail: string, half: bool, p: Rx, junk: nat -> byte)
    ensures ReadLines([line] + more, tail, half, p, junk) ==
            ReadOn(ParseLine(line + CRLF + Message(more, tail), half, p, junk), more, tail, half, junk)
  {
    hide ParseLine;
    assert ([line] + more)[1..] == more;
  }

  lemma AgentPlain()
    ensures Plain(UserAgent()) && |UserAgent()| == 80 && UserAgent()[0] == 'U'
  {
    var a, b, c, d := "User-Agent: Mozilla/5.0 ", "(X11; Linux x86_64; ", "rv:12.0) Gecko/20100101 ", "Firefox/12.0";
    PlainConcat(a, b);
    PlainConcat(a + b, c);
    PlainConcat(a + b + c, d);
  }

  lemma TrailerPlain()
    ensures Plain("Server: nginx/0.8.54") && Plain("Content-Type: text/html") && Plain("Content-Length: 107")
  {}

  lemma RequestAuthPlain(size: Option<nat>, frag: seq<byte>)
    ensures Plain(RequestLine(size)) && RequestLine(size) != "" && Plain(AuthLine(frag)) && AuthLine(frag) != ""
  {
    hide Encode, Be32;
    EncodePlain(frag);
    if size.Some? {
      EncodePlain(Be32(size.value));
    }
  }

  lemma ClientHeader(host: string, size: Option<nat>, frag: seq<byte>)
    requires Unbroken(host)
    ensures Header([RequestLine(size), "Host: " + host + ":8080", UserAgent(), AuthLine(frag)])
  {
    hide RequestLine, AuthLine, UserAgent, Unbroken;
    AgentPlain();
    PlainIsUnbroken(UserAgent());
    UnbrokenBetween("Host: ", host, ":8080");
    RequestAuthPlain(size, frag);
    PlainIsUnbroken(RequestLine(size));
    PlainIsUnbroken(AuthLine(frag));
  }

  lemma ServerHeader(size: Option<nat>, frag: seq<byte>)
    ensures Header(["HTTP/1.1 200 OK", CookieLine(SizeText(size), Encode(frag)), "Server: nginx/0.8.54",
            "Content-Type: text/html", "Content-Length: 107"])
  {
    hide Encode, Be32;
    TrailerPlain();
    EncodePlain(frag);
    if size.Some? {
      EncodePlain(Be32(size.value));
    }
    CookiePlain(SizeText(size), Encode(frag));
  }

  lemma ReadRequest(size: Option<nat>, more: seq<string>, half: bool, p: Rx, junk: nat -> byte)
    requires !(half && size.Some?)
    ensures ReadLines([RequestLine(size)] + more, "", half, p, junk) ==
            ReadLines(more, "", half, Announced(size, p, junk), junk)
  {
    hide Encode, Be32, ParseLine, Announced, ReadLines;
    if size.Some? {
      ReadOne(RequestLine(size), more, "", half, p, junk);
      RequestLineMeans(size.value, Message(more, ""), p, junk);
    } else {
      assert RequestLine(size) == "GET /index.php HTTP/1.1";
      ReadOther(RequestLine(size), more, "", half, p, junk);
    }
    AnnouncedNone(p, junk);
  }

  lemma AnnouncedNone(p: Rx, junk: nat -> byte)
    ensures Announced(None, p, junk) == p
  {}

  lemma ReadAuth(frag: seq<byte>, half: bool, p: Rx, junk: nat -> byte)
    ensures ReadLines([AuthLine(frag)], "", half, p, junk) == Copied(p, frag)
  {
    hide Encode, ParseLine, Copied, AuthLine;
    ReadOne(AuthLine(frag), [], "", half, p, junk);
    AuthLineMeans(frag, Message([], ""), half, p, junk);
    assert [AuthLine(frag)] == [AuthLine(frag)] + [];
  }

  lemma ReadClient(host: string, size: Option<nat>, frag: seq<byte>, half: bool, p: Rx, junk: nat -> byte)
    requires Unbroken(host) && !(half && size.Some?)
    ensures ReadLines([RequestLine(size), "Host: " + host + ":8080", UserAgent(), AuthLine(frag)], "", half, p, junk)
            == Deliver(size, frag, p, junk)
  {
    hide UserAgent, RequestLine, AuthLine, ReadLines, Announced, Copied;
    var l1, l2, l3, l4 := RequestLine(size), "Host: " + host + ":8080", UserAgent(), AuthLine(frag);
    var q := Announced(size, p, junk);
    AgentPlain();
    assert [l1, l2, l3, l4] == [l1] + [l2, l3, l4];
    assert [l2, l3, l4] == [l2] + [l3, l4];
    assert [l3, l4] == [l3] + [l4];
    ReadRequest(size, [l2, l3, l4], half, p, junk);
    ReadOther(l2, [l3, l4], "", half, q, junk);
    ReadOther(l3, [l4], "", half, q, junk);
    ReadAuth(frag, half, q, junk);
  }

  /** The server's search recovers from the client's text exactly the size and the fragment
      that went in, for every fragment and every size. */
  lemma ClientMessage(host: string, size: Option<nat>, frag: seq<byte>, half: bool, p: Rx, junk: nat -> byte)
    requires Unbroken(host) && !(half && size.Some?)
    ensures var s := ClientText(host, size, frag);
            var b := Find(s, BLANK);
            b.Some? && Scan(s, b.value, half, p, junk) == Deliver(size, frag, p, junk)
  {
    hide UserAgent, RequestLine, AuthLine, ReadLines, Deliver, Find, Scan, HeadEnd;
    var lines := [RequestLine(size), "Host: " + host + ":8080", UserAgent(), AuthLine(frag)];
    ClientHeader(host, size, frag);
    BlankAtHeadEnd(lines, "");
    ScanReadsLines(lines, "", half, p, junk);
    ReadClient(host, size, frag, half, p, junk);
  }

  lemma ReadCookie(size: Option<nat>, frag: seq<byte>, more: seq<string>, tail: string, half: bool, p: Rx,
                   junk: nat -> byte)
    ensures ReadLines([CookieLine(SizeText(size), Encode(frag))] + more, tail, half, p, junk) ==
            ReadOn(Deliver(size, frag, p, junk), more, tail, half, junk)
  {
    hide Encode, Be32, ParseLine, Announced, ReadLines, Copied, CookieLine, Begin, Store;
    var h, id := SizeText(size), Encode(frag);
    EncodePlain(frag);
    if size.Some? {
      EncodePlain(Be32(size.value));
      BeginEncode(size.value, p, junk);
    }
    AnnouncedNone(p, junk);
    ReadOne(CookieLine(h, id), more, tail, half, p, junk);
    CookieLineMeans(h, id, Message(more, tail), half, p, junk);
    StoreEncode(Announced(size, p, junk), frag);
  }

  lemma ReadServer(size: Option<nat>, frag: seq<byte>, half: bool, p: Rx, junk: nat -> byte)
    ensures ReadLines(["HTTP/1.1 200 OK", CookieLine(SizeText(size), Encode(frag)), "Server: nginx/0.8.54",
            "Content-Type: text/html", "Content-Length: 107"],
                      DefaultPage(), half, p, junk)
            == Deliver(size, frag, p, junk)
  {
    hide Encode, CookieLine, SizeText, DefaultPage, ReadLines, Deliver;
    var l1, l2 := "HTTP/1.1 200 OK", CookieLine(SizeText(size), Encode(frag));
    var l3, l4, l5 := "Server: nginx/0.8.54", "Content-Type: text/html", "Content-Length: 107";
    var tail := DefaultPage();
    assert [l1, l2, l3, l4, l5] == [l1] + [l2, l3, l4, l5];
    assert [l2, l3, l4, l5] == [l2] + [l3, l4, l5];
    ReadOther(l1, [l2, l3, l4, l5], tail, half, p, junk);
    ReadCookie(size, frag, [l3, l4, l5], tail, half, p, junk);
    var r := Deliver(size, frag, p, junk);
    if r.Ok? {
      ReadTrailer(l3, l4, l5, tail, half, r.value, junk);
    }
  }

  lemma ReadTrailer(l3: string, l4: string, l5: string, tail: string, half: bool, p: Rx, junk: nat -> byte)
    requires Other(l3) && Other(l4) && Other(l5)
    ensures ReadLines([l3, l4, l5], tail, half, p, junk) == Ok(p)
  {
    assert [l3, l4, l5] == [l3] + [l4, l5];
    assert [l4, l5] == [l4] + [l5];
    assert [l5] == [l5] + [];
    ReadOther(l3, [l4, l5], tail, half, p, junk);
    ReadOther(l4, [l5], tail, half, p, junk);
    ReadOther(l5, [], tail, half, p, junk);
  }

  /** The client's search recovers the same from the server's text. */
  lemma ServerMessage(size: Option<nat>, frag: seq<byte>, half: bool, p: Rx, junk: nat -> byte)
    ensures var s := ServerText(size, frag);
            var b := Find(s, BLANK);
            b.Some? && Scan(s, b.value, half, p, junk) == Deliver(size, frag, p, junk)
  {
    hide Encode, CookieLine, SizeText, DefaultPage, ReadLines, Deliver, Find, Scan, HeadEnd;
    var lines := ["HTTP/1.1 200 OK", CookieLine(SizeText(size), Encode(frag)), "Server: nginx/0.8.54",
        "Content-Type: text/html", "Content-Length: 107"];
    ServerHeader(size, frag);
    BlankAtHeadEnd(lines, DefaultPage());
    ScanReadsLines(lines, DefaultPage(), half, p, junk);
    ReadServer(size, frag, half, p, junk);
  }

  /** A bare request or a bare response carries nothing and leaves the receiver alone. */
  lemma BareMessage(line: string, half: bool, p: Rx, junk: nat -> byte)
    requires line == "GET / HTTP/1.1" || line == "HTTP/1.1 200 OK"
    ensures var s := Message([line], "");
            var b := Find(s, BLANK);
            b.Some? && Scan(s, b.value, half, p, junk) == Ok(p)
  {
    hide ReadLines, Find, Scan, HeadEnd;
    BlankAtHeadEnd([line], "");
    ScanReadsLines([line], "", half, p, junk);
    ReadOther(line, [], "", half, p, junk);
    assert [line] == [line] + [];
    ReadNone("", half, p, junk);
  }

  lemma ReadNone(tail: string, half: bool, p: Rx, junk: nat -> byte)
    ensures ReadLines([], tail, half, p, junk) == Ok(p)
  {}

  // ----- Plain HTTP: one packet, one message -----

  function Decimal(n: nat): (s: string)
    ensures s != "" && forall i :: 0 <= i < |s| ==> '0' <= s[i] <= '9'
  {
    (if n < 10 then "" else Decimal(n / 10)) + [(n % 10 + 48) as char]
  }

  /** The number a digit string denotes. */
  ghost function Number(s: string): int {
    if s == "" then 0 else 10 * Number(s[..|s| - 1]) + (s[|s| - 1] as int - '0' as int)
  }

  /** s is n in decimal: digits only, no leading zero. */
  ghost predicate Denotes(s: string, n: int) {
    s != "" && (forall i :: 0 <= i < |s| ==> '0' <= s[i] <= '9') && (|s| > 1 ==> s[0] != '0') && Number(s) == n
  }

  lemma {:induction false} DecimalDenotes(n: nat)
    ensures Denotes(Decimal(n), n) && (n > 0 ==> Decimal(n)[0] != '0')
  {
    var d := Decimal(n);
    if n >= 10 {
      DecimalDenotes(n / 10);
      assert d[..|d| - 1] == Decimal(n / 10);
    } else {
      assert d == [(n + 48) as char] && d[..0] == "";
    }
  }

  function StatusLine(server: bool): string { if server then "HTTP/1.1 200 OK" else "POST / HTTP/1.1" }

  function LengthLine(n: nat): string { CONTENT_LENGTH + " " + Decimal(n) }

  function NormalText(server: bool, data: seq<byte>): string {
    Message([StatusLine(server), LengthLine(EncLen(|data|))], Encode(data))
  }

  /** The packet in a message, if its header announces one. */
  function ParseNormal(msg: string): Result<Option<seq<byte>>, Fault> {
    match Find(msg, BLANK)
    case None => Ok(None)
    case Some(body) =>
      match Find(msg, CONTENT_LENGTH)
      case None => Ok(None)
      case Some(field) =>
        if field >= body then Ok(None)
        else if IsValid(msg[body + 4..]) then Ok(Some(Decoded(msg[body + 4..])))
        else Err(Malformed)
  }

  lemma NormalHeader(server: bool, n: nat)
    ensures Header([StatusLine(server), LengthLine(n)])
  {
    PlainConcat(CONTENT_LENGTH + " ", Decimal(n));
  }

  lemma TwoLines(l1: string, l2: string, tail: string)
    ensures Message([l1, l2], tail) == l1 + CRLF + l2 + BLANK + tail
  {
    assert [l1, l2][1..] == [l2];
    assert Message([l2], tail) == l2 + BLANK + tail;
  }

  lemma FourLines(l1: string, l2: string, l3: string, l4: string, tail: string)
    ensures Message([l1, l2, l3, l4], tail) == l1 + CRLF + (l2 + CRLF) + (l3 + CRLF) + (l4 + CRLF) + CRLF + tail
  {
    assert [l1, l2, l3, l4][1..] == [l2, l3, l4] && [l2, l3, l4][1..] == [l3, l4];
    TwoLines(l3, l4, tail);
  }

  lemma FiveLines(cookie: string, tail: string)
    ensures Message(["HTTP/1.1 200 OK", cookie, "Server: nginx/0.8.54", "Content-Type: text/html",
            "Content-Length: 107"], tail) ==
            "HTTP/1.1 200 OK\r\n" + (cookie + CRLF)
            + ("Server: nginx/0.8.54\r\n" + "Content-Type: text/html\r\n" + "Content-Length: 107\r\n" + "\r\n") + tail
  {
    var l1, l3, l4, l5 := "HTTP/1.1 200 OK", "Server: nginx/0.8.54", "Content-Type: text/html", "Content-Length: 107";
    assert [l1, cookie, l3, l4, l5][1..] == [cookie, l3, l4, l5];
    FourLines(cookie, l3, l4, l5, tail);
    assert l1 + CRLF == "HTTP/1.1 200 OK\r\n";
    assert l3 + CRLF == "Server: nginx/0.8.54\r\n";
    assert l4 + CRLF == "Content-Type: text/html\r\n";
    assert l5 + CRLF == "Content-Length: 107\r\n";
  }

  lemma FindAtMost(s: string, pat: string, k: nat)
    requires pat != "" && At(s, k, pat)
    ensures Find(s, pat).Some? && Find(s, pat).value <= k
  {}

  lemma NormalFinds(l1: string, l2: string, text: string)
    requires Header([l1, l2]) && CONTENT_LENGTH <= l2
    ensures var s := Message([l1, l2], text);
            var body, field := Find(s, BLANK), Find(s, CONTENT_LENGTH);
            && body.Some? && field.Some? && field.value < body.value && s[body.value + 4..] == text
  {
    hide Find;
    var s, k := Message([l1, l2], text), |l1| + 2;
    BlankAtHeadEnd([l1, l2], text);
    TwoLines(l1, l2, text);
    assert [l1, l2][1..] == [l2] && [l2][1..] == [] && HeadEnd([l2]) == |l2|;
    assert s[k..] == l2 + BLANK + text;
    FindAtMost(s, CONTENT_LENGTH, k);
    assert s[k + |l2| + 4..] == text;
  }

  /** The plain receiver on any text behind a header that has the field: the decoded packet, or
      a fault if the text is not valid. */
  lemma PlainOutcome(l1: string, l2: string, text: string)
    requires Header([l1, l2]) && CONTENT_LENGTH <= l2
    ensures ParseNormal(Message([l1, l2], text)) == if IsValid(text) then Ok(Some(Decoded(text))) else Err(Malformed)
  {
    hide Decoded, IsValid, Find, Message;
    NormalFinds(l1, l2, text);
  }

  /** Every packet, the empty one included, is recovered from its message. */
  lemma NormalMessage(server: bool, data: seq<byte>)
    ensures ParseNormal(NormalText(server, data)) == Ok(Some(data))
  {
    hide Encode, Decoded, IsValid, Decimal, ParseNormal, Message, EncLen;
    NormalHeader(server, EncLen(|data|));
    PlainOutcome(StatusLine(server), LengthLine(EncLen(|data|)), Encode(data));
    DecodeEncode(data);
  }

  /** A Content-Length behind the blank line does not count: a message whose header lines start
      no such field carries no packet for the plain receiver, whatever follows. */
  lemma FieldInBodyIgnored(line: string, tail: string)
    requires Unbroken(line) && line != "" && forall i: nat :: i < |line| ==> line[i] != 'C'
    ensures ParseNormal(Message([line], tail)) == Ok(None)
  {
    hide Find;
    var s := Message([line], tail);
    BlankAtHeadEnd([line], tail);
    assert [line][1..] == [] && HeadEnd([line]) == |line|;
    assert s == line + CRLF + CRLF + tail;
    forall i: nat | i <= |line| ensures !At(s, i, CONTENT_LENGTH) {
      NotAt(s, i, CONTENT_LENGTH);
    }
  }

  lemma BareNormal(line: string)
    requires line == "GET / HTTP/1.1" || line == "HTTP/1.1 200 OK"
    ensures ParseNormal(Message([line], "")) == Ok(None)
  {
    FieldInBodyIgnored(line, "");
  }

  // ----- Messages fit the 2048-byte buffers of both sides -----

  const BUF: nat := 2048

  lemma DecimalLength(n: nat)
    requires n < 10000
    ensures |Decimal(n)| == if n < 10 then 1 else if n < 100 then 2 else if n < 1000 then 3 else 4
  {
    assert n / 10 / 10 == n / 100 && n / 10 / 10 / 10 == n / 1000;
  }

  lemma {:induction false} DecimalGrows(n: nat)
    requires n >= 1000
    ensures |Decimal(n)| >= 4
  {
    if n >= 10000 {
      DecimalGrows(n / 10);
    } else {
      DecimalLength(n);
    }
  }

  /** With its NUL, a message of the plain mode fits exactly up to 1503 bytes of packet; the
      MTU of the module is 1500. */
  lemma NormalFits(server: bool, data: seq<byte>)
    ensures |NormalText(server, data)| < 2048 <==> |data| <= 1503
  {
    hide Encode, Decimal;
    var n := EncLen(|data|);
    TwoLines(StatusLine(server), LengthLine(n), Encode(data));
    if n < 10000 {
      DecimalLength(n);
    } else {
      DecimalGrows(n);
    }
  }

  lemma {:induction false} MessageLength(lines: seq<string>, tail: string)
    ensures |Message(lines, tail)| == HeadEnd(lines) + 4 + |tail|
  {
    if lines != [] {
      MessageLength(lines[1..], tail);
    }
  }

  lemma HeadEndFour(l1: string, l2: string, l3: string, l4: string)
    ensures HeadEnd([l1, l2, l3, l4]) == |l1| + |l2| + |l3| + |l4| + 6
  {
    assert [l4][1..] == [] && HeadEnd([l4]) == |l4|;
    assert [l3, l4][1..] == [l4] && HeadEnd([l3, l4]) == |l3| + |l4| + 2;
    assert [l2, l3, l4][1..] == [l3, l4] && HeadEnd([l2, l3, l4]) == |l2| + |l3| + |l4| + 4;
    assert [l1, l2, l3, l4][1..] == [l2, l3, l4];
  }

  lemma ClientLength(host: string, size: Option<nat>, frag: seq<byte>)
    ensures |ClientText(host, size, frag)| == |host| + 139 + EncLen(|frag|) + if size.Some? then 11 else 0
  {
    hide Encode, Be32, UserAgent, Message;
    AgentPlain();
    var l1, l2, l3, l4 := RequestLine(size), "Host: " + host + ":8080", UserAgent(), AuthLine(frag);
    MessageLength([l1, l2, l3, l4], "");
    HeadEndFour(l1, l2, l3, l4);
  }

  /** Every message of a client fits exactly when the configured remote has at most 1873
      characters. */
  lemma ClientFits(host: string)
    ensures (forall size, frag: seq<byte> {:trigger ClientText(host, size, frag)} ::
               |frag| <= 16 ==> |ClientText(host, size, frag)| < 2048)
            <==> |host| <= 1873
  {
    hide ClientText;
    forall size, frag: seq<byte>
      ensures |ClientText(host, size, frag)| == |host| + 139 + EncLen(|frag|) + if size.Some? then 11 else 0
    {
      ClientLength(host, size, frag);
    }
    var most := seq(16, _ => 0 as byte);
    assert |ClientText(host, Some(0), most)| == |host| + 174;
  }

  lemma ServerFits(size: Option<nat>, frag: seq<byte>)
    requires |frag| <= 16
    ensures 107 < |ServerText(size, frag)| < 2048
  {
    hide Encode, Be32, Message, DefaultPage;
    PageLength();
    var l1, l2 := "HTTP/1.1 200 OK", CookieLine(SizeText(size), Encode(frag));
    var l3, l4, l5 := "Server: nginx/0.8.54", "Content-Type: text/html", "Content-Length: 107";
    MessageLength([l1, l2, l3, l4, l5], DefaultPage());
    assert [l1, l2, l3, l4, l5][1..] == [l2, l3, l4, l5];
    HeadEndFour(l2, l3, l4, l5);
  }

  lemma BareLength(line: string)
    ensures |Message([line], "")| == |line| + 4
  {
    MessageLength([line], "");
    assert [line][1..] == [];
  }

  // ----- Messages are C strings -----

  lemma {:induction false} MessageNoNul(lines: seq<string>, tail: string)
    requires Header(lines) && '\0' !in tail
    ensures '\0' !in Message(lines, tail)
  {
    if lines != [] {
      assert Unbroken(lines[0]);
      MessageNoNul(lines[1..], tail);
    }
  }

  lemma NoNulConcat(s: string, t: string)
    requires '\0' !in s && '\0' !in t
    ensures '\0' !in s + t
  {}

  lemma PageNoNul()
    ensures '\0' !in DefaultPage()
  {
    var a, b, c, d := "<html><head><title>Default ", "page</title></head><body>", "<center><h1>Server works!</h1>",
        "</center></body></html>\r\n";
    assert '\0' !in a && '\0' !in b;
    NoNulConcat(a, b);
    assert '\0' !in c && '\0' !in d;
    NoNulConcat(a + b, c);
    NoNulConcat(a + b + c, d);
  }

  lemma ClientNoNul(host: string, size: Option<nat>, frag: seq<byte>)
    requires Unbroken(host)
    ensures '\0' !in ClientText(host, size, frag)
  {
    hide Message;
    ClientHeader(host, size, frag);
    MessageNoNul([RequestLine(size), "Host: " + host + ":8080", UserAgent(), AuthLine(frag)], "");
  }

  lemma ServerNoNul(size: Option<nat>, frag: seq<byte>)
    ensures '\0' !in ServerText(size, frag)
  {
    hide Message;
    ServerHeader(size, frag);
    PageNoNul();
    MessageNoNul(["HTTP/1.1 200 OK", CookieLine(SizeText(size), Encode(frag)), "Server: nginx/0.8.54",
        "Content-Type: text/html", "Content-Length: 107"],
                 DefaultPage());
  }

  lemma NormalNoNul(server: bool, data: seq<byte>)
    ensures '\0' !in NormalText(server, data)
  {
    hide Message, Encode, Decimal;
    NormalHeader(server, EncLen(|data|));
    EncodePlain(data);
    MessageNoNul([StatusLine(server), LengthLine(EncLen(|data|))], Encode(data));
  }
}
