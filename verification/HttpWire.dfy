/** The messages of src/modules/tp_http.c as they stand on the wire, character by character. */
module HttpWire {
  import opened Wrappers
  import opened CText
  import opened Base64
  import opened HttpText
  import HttpTransport

  /** The size that four bytes in network order announce. */
  ghost function Announces(b: seq<byte>): nat
    requires |b| == 4
  {
    NatOf(b[0]) * 0x100_0000 + NatOf(b[1]) * 0x1_0000 + NatOf(b[2]) * 0x100 + NatOf(b[3])
  }

  lemma AgentText()
    ensures UserAgent() + "\r\n" ==
            "User-Agent: Mozilla/5.0 " + "(X11; Linux x86_64; " + "rv:12.0) Gecko/20100101 " + "Firefox/12.0\r\n"
  {}

  lemma HostText(host: string)
    ensures "Host: " + host + ":8080" + CRLF == "Host: " + host + ":8080\r\n"
  {}

  lemma AuthText(frag: seq<byte>)
    ensures AuthLine(frag) + CRLF == "Authorization: " + RfcEncode(frag) + "\r\n"
  {
    hide Encode, RfcEncode;
    EncodeIsRfc(frag);
  }

  lemma ClientLines(request: string, host: string, frag: seq<byte>)
    ensures Message([request, "Host: " + host + ":8080", UserAgent(), AuthLine(frag)], "") ==
            request + CRLF
            + ("Host: " + host + ":8080\r\n")
            + ("User-Agent: Mozilla/5.0 " + "(X11; Linux x86_64; " + "rv:12.0) Gecko/20100101 " + "Firefox/12.0\r\n")
            + ("Authorization: " + RfcEncode(frag) + "\r\n")
            + "\r\n"
  {
    hide UserAgent, AuthLine, RfcEncode, Message;
    FourLines(request, "Host: " + host + ":8080", UserAgent(), AuthLine(frag), "");
    HostText(host);
    AuthText(frag);
    AgentText();
    assert forall s: string {:trigger s + CRLF} :: s + CRLF + "" == s + CRLF;
  }

  /** The client's message with the first fragment of a packet: four bytes announce its size. */
  lemma ClientFirst(host: string, b: seq<byte>, frag: seq<byte>)
    requires |b| == 4
    ensures ClientText(host, Some(Announces(b)), frag) ==
            ("GET /index.php?s=" + RfcEncode(b) + " HTTP/1.1\r\n")
            + ("Host: " + host + ":8080\r\n")
            + ("User-Agent: Mozilla/5.0 " + "(X11; Linux x86_64; " + "rv:12.0) Gecko/20100101 " + "Firefox/12.0\r\n")
            + ("Authorization: " + RfcEncode(frag) + "\r\n")
            + "\r\n"
  {
    hide UserAgent, AuthLine, RequestLine, RfcEncode, Message, NatOf;
    ClientLines(RequestLine(Some(Announces(b))), host, frag);
    FirstRequest(b);
  }

  lemma FirstRequest(b: seq<byte>)
    requires |b| == 4
    ensures RequestLine(Some(Announces(b))) + CRLF == "GET /index.php?s=" + RfcEncode(b) + " HTTP/1.1\r\n"
  {
    hide Encode, RfcEncode, Be32, NatOf, Announces;
    AnnouncesBytes(b);
    EncodeIsRfc(b);
    var text := RfcEncode(b);
    assert RequestLine(Some(Announces(b))) == "GET /index.php?s=" + text + " HTTP/1.1";
  }

  lemma AnnouncesBytes(b: seq<byte>)
    requires |b| == 4
    ensures Be32(Announces(b)) == b
  {
    hide Be32, NatOf;
    SizeBytes(b);
  }

  /** The client's message with any later fragment. */
  lemma ClientNext(host: string, frag: seq<byte>)
    ensures ClientText(host, None, frag) ==
            "GET /index.php HTTP/1.1\r\n"
            + ("Host: " + host + ":8080\r\n")
            + ("User-Agent: Mozilla/5.0 " + "(X11; Linux x86_64; " + "rv:12.0) Gecko/20100101 " + "Firefox/12.0\r\n")
            + ("Authorization: " + RfcEncode(frag) + "\r\n")
            + "\r\n"
  {
    hide UserAgent, AuthLine, RfcEncode, Message;
    ClientLines(RequestLine(None), host, frag);
    assert RequestLine(None) + CRLF == "GET /index.php HTTP/1.1\r\n";
  }

  /** What follows the cookie in every message of the server. */
  lemma ServerTail(cookie: string)
    ensures Message(["HTTP/1.1 200 OK", cookie, "Server: nginx/0.8.54", "Content-Type: text/html",
                     "Content-Length: 107"], DefaultPage()) ==
            "HTTP/1.1 200 OK\r\n" + cookie + "\r\n"
            + "Server: nginx/0.8.54\r\n" + "Content-Type: text/html\r\n" + "Content-Length: 107\r\n" + "\r\n"
            + ("<html><head><title>Default " + "page</title></head><body>" + "<center><h1>Server works!</h1>"
               + "</center></body></html>\r\n")
  {
    hide Message;
    FiveLines(cookie, DefaultPage());
  }

  lemma ServerFirst(b: seq<byte>, frag: seq<byte>)
    requires |b| == 4
    ensures ServerText(Some(Announces(b)), frag) ==
            "HTTP/1.1 200 OK\r\n"
            + ("Set-Cookie: H=" + RfcEncode(b) + "; ID=" + RfcEncode(frag) + "; Max-Age=3600; Version=1") + "\r\n"
            + "Server: nginx/0.8.54\r\n" + "Content-Type: text/html\r\n" + "Content-Length: 107\r\n" + "\r\n"
            + ("<html><head><title>Default " + "page</title></head><body>" + "<center><h1>Server works!</h1>"
               + "</center></body></html>\r\n")
  {
    hide Encode, RfcEncode, Be32, Message, DefaultPage, Announces;
    AnnouncesBytes(b);
    EncodeIsRfc(b);
    EncodeIsRfc(frag);
    var cookie := "Set-Cookie: H=" + RfcEncode(b) + "; ID=" + RfcEncode(frag) + "; Max-Age=3600; Version=1";
    assert CookieLine(SizeText(Some(Announces(b))), Encode(frag)) == cookie;
    ServerTail(cookie);
  }

  lemma ServerNext(frag: seq<byte>)
    ensures ServerText(None, frag) ==
            "HTTP/1.1 200 OK\r\n"
            + ("Set-Cookie: ID=" + RfcEncode(frag) + "; Max-Age=3600; Version=1") + "\r\n"
            + "Server: nginx/0.8.54\r\n" + "Content-Type: text/html\r\n" + "Content-Length: 107\r\n" + "\r\n"
            + ("<html><head><title>Default " + "page</title></head><body>" + "<center><h1>Server works!</h1>"
               + "</center></body></html>\r\n")
  {
    hide Encode, RfcEncode, Message, DefaultPage;
    EncodeIsRfc(frag);
    var cookie := "Set-Cookie: ID=" + RfcEncode(frag) + "; Max-Age=3600; Version=1";
    assert CookieLine(SizeText(None), Encode(frag)) == cookie;
    ServerTail(cookie);
  }

  /** The plain message, with the length of the text in decimal. */
  lemma PlainMessage(server: bool, data: seq<byte>) returns (number: string)
    ensures Denotes(number, |RfcEncode(data)|)
    ensures NormalText(server, data) ==
            (if server then "HTTP/1.1 200 OK\r\n" else "POST / HTTP/1.1\r\n")
            + "Content-Length: " + number + "\r\n" + "\r\n" + RfcEncode(data)
  {
    hide Encode, RfcEncode, Decimal, Number, Message;
    EncodeIsRfc(data);
    number := Decimal(|Encode(data)|);
    DecimalDenotes(|Encode(data)|);
    TwoLines(StatusLine(server), LengthLine(|Encode(data)|), Encode(data));
  }

  // ----- What an endpoint writes for a packet -----

  /** The data of the message at offset off. */
  ghost function Piece(p: seq<byte>, off: nat): seq<byte>
    requires off <= |p|
  {
    if off + 16 <= |p| then p[off..off + 16] else p[off..]
  }

  lemma FragmentIsPiece(p: seq<byte>, off: nat)
    requires off <= |p|
    ensures HttpTransport.Fragment(p, off) == Piece(p, off)
  {}

  /** A client in the side channel: at offset 0 the request announces the size of the packet in
      the four bytes b; every message carries the next 16 bytes, or what is left. */
  lemma ClientWrites(c: HttpTransport.Conf, p: seq<byte>, off: nat, b: seq<byte>)
    requires c.sideChannel && !c.server && off <= |p| && |b| == 4 && Announces(b) == |p|
    ensures HttpTransport.DataText(c, p, off) ==
            (if off == 0 then "GET /index.php?s=" + RfcEncode(b) + " HTTP/1.1\r\n" else "GET /index.php HTTP/1.1\r\n")
            + ("Host: " + c.remote + ":8080\r\n")
            + ("User-Agent: Mozilla/5.0 " + "(X11; Linux x86_64; " + "rv:12.0) Gecko/20100101 " + "Firefox/12.0\r\n")
            + ("Authorization: " + RfcEncode(Piece(p, off)) + "\r\n")
            + "\r\n"
  {
    hide ClientText, ServerText, NormalText, HttpTransport.Fragment, Piece, Announces, RfcEncode;
    FragmentIsPiece(p, off);
    if off == 0 {
      ClientFirst(c.remote, b, Piece(p, off));
    } else {
      ClientNext(c.remote, Piece(p, off));
    }
  }

  /** A server in the side channel: the same in a cookie. */
  lemma ServerWrites(c: HttpTransport.Conf, p: seq<byte>, off: nat, b: seq<byte>)
    requires c.sideChannel && c.server && off <= |p| && |b| == 4 && Announces(b) == |p|
    ensures HttpTransport.DataText(c, p, off) ==
            "HTTP/1.1 200 OK\r\n"
            + (if off == 0
               then "Set-Cookie: H=" + RfcEncode(b) + "; ID=" + RfcEncode(Piece(p, off)) + "; Max-Age=3600; Version=1"
               else "Set-Cookie: ID=" + RfcEncode(Piece(p, off)) + "; Max-Age=3600; Version=1")
            + "\r\n"
            + "Server: nginx/0.8.54\r\n" + "Content-Type: text/html\r\n" + "Content-Length: 107\r\n" + "\r\n"
            + ("<html><head><title>Default " + "page</title></head><body>" + "<center><h1>Server works!</h1>"
               + "</center></body></html>\r\n")
  {
    hide ClientText, ServerText, NormalText, HttpTransport.Fragment, Piece, Announces, RfcEncode;
    FragmentIsPiece(p, off);
    if off == 0 {
      ServerFirst(b, Piece(p, off));
    } else {
      ServerNext(Piece(p, off));
    }
  }

  /** Either side in the plain mode: the whole packet, and the length of its text in decimal. */
  lemma PlainWrites(c: HttpTransport.Conf, p: seq<byte>) returns (number: string)
    requires !c.sideChannel
    ensures Denotes(number, |RfcEncode(p)|)
    ensures HttpTransport.DataText(c, p, 0) ==
            (if c.server then "HTTP/1.1 200 OK\r\n" else "POST / HTTP/1.1\r\n")
            + "Content-Length: " + number + "\r\n" + "\r\n" + RfcEncode(p)
  {
    hide NormalText, RfcEncode, Denotes;
    number := PlainMessage(c.server, p);
  }

  // ----- The length a message claims is the length it has -----

  const LENGTH: string := "Content-Length: "

  /** What stands between the first "Content-Length: " and the end of its line is, in decimal,
      the number of characters behind the first blank line. */
  ghost predicate LengthIsTrue(msg: string) {
    var field, body := Find(msg, "Content-Length: "), Find(msg, "\r\n\r\n");
    && field.Some? && body.Some? && field.value + 16 <= |msg| && body.value + 4 <= |msg|
    && var value := msg[field.value + 16..];
       var end := Find(value, "\r\n");
       end.Some? && end.value <= |value| && Denotes(value[..end.value], |msg[body.value + 4..]|)
  }

  ghost predicate Lacks(line: string, pat: string) { forall i: nat :: !At(line, i, pat) }

  lemma NotAtChar(s: string, i: nat, pat: string, k: nat)
    requires k < |pat| && i + k < |s| && s[i + k] != pat[k]
    ensures !At(s, i, pat)
  {
    assert s[i..][k] == s[i + k];
  }

  lemma AtShifted(a: string, rest: string, j: nat, pat: string)
    ensures At(a + rest, |a| + j, pat) == At(rest, j, pat)
  {
    if j <= |rest| {
      assert (a + rest)[|a| + j..] == rest[j..];
    }
  }

  lemma AtInside(line: string, more: string, i: nat, pat: string)
    requires i + |pat| <= |line|
    ensures At(line + more, i, pat) == At(line, i, pat)
  {
    assert line[i..][..|pat|] == (line + more)[i..][..|pat|];
  }

  ghost predicate OneLine(pat: string) { pat != "" && pat[0] != '\n' && forall i :: 0 <= i < |pat| ==> pat[i] != '\r' }

  lemma {:induction false} NotBefore(line: string, rest: string, pat: string, i: nat)
    requires Lacks(line, pat) && OneLine(pat) && i < |line| + 2
    ensures !At(line + CRLF + rest, i, pat)
  {
    hide At;
    var s := line + CRLF + rest;
    if i + |pat| <= |line| {
      assert s == line + (CRLF + rest);
      AtInside(line, CRLF + rest, i, pat);
    } else if i <= |line| {
      NotAtChar(s, i, pat, |line| - i);
    } else {
      NotAtChar(s, i, pat, 0);
    }
  }

  lemma {:induction false} FindShifted(a: string, rest: string, pat: string)
    requires pat != "" && Find(rest, pat).Some? && forall i: nat :: i < |a| ==> !At(a + rest, i, pat)
    ensures Find(a + rest, pat) == Some(|a| + Find(rest, pat).value)
  {
    hide At, Find;
    var s, k := a + rest, Find(rest, pat).value;
    forall i: nat | i < |a| + k ensures !At(s, i, pat) {
      if i >= |a| {
        AtShifted(a, rest, i - |a|, pat);
      }
    }
    AtShifted(a, rest, k, pat);
    FindIs(s, pat, |a| + k);
  }

  /** A field that the first line lacks is found behind it. */
  lemma {:induction false} FieldBehind(line: string, rest: string, pat: string)
    requires Lacks(line, pat) && OneLine(pat) && pat != "" && Find(rest, pat).Some?
    ensures Find(line + CRLF + rest, pat) == Some(|line| + 2 + Find(rest, pat).value)
  {
    hide Lacks, At, Find, OneLine;
    forall i: nat | i < |line| + 2 ensures !At(line + CRLF + rest, i, pat) { NotBefore(line, rest, pat, i); }
    FindShifted(line + CRLF, rest, pat);
  }

  ghost predicate NoDashL(s: string) { forall i :: 0 <= i < |s| - 1 && s[i] == '-' ==> s[i + 1] != 'L' }

  lemma {:induction false} LacksLength(line: string)
    requires NoDashL(line)
    ensures Lacks(line, LENGTH)
  {
    forall i: nat ensures !At(line, i, LENGTH) {
      if i + 16 <= |line| {
        NotAtChar(line, i, LENGTH, if line[i + 7] != '-' then 7 else 8);
      }
    }
  }

  lemma EncodeHasNoDash(b: seq<byte>)
    ensures forall i :: 0 <= i < |Encode(b)| ==> Encode(b)[i] != '-'
  {
    hide Sym, Sextet;
    forall i | 0 <= i < |Encode(b)| ensures Encode(b)[i] != '-' { EncAtKind(b, i); }
  }

  lemma CookieLacksLength(h: Option<string>, id: string)
    requires forall i :: 0 <= i < |id| ==> id[i] != '-'
    requires h.Some? ==> forall i :: 0 <= i < |h.value| ==> h.value[i] != '-'
    ensures NoDashL(CookieLine(h, id))
  {
    var mid := if h.Some? then "H=" + h.value + "; " else "";
    assert forall i :: 0 <= i < |mid| ==> mid[i] != '-';
    var plain := mid + "ID=" + id;
    assert forall i :: 0 <= i < |plain| ==> plain[i] != '-';
    var a, b := "Set-Cookie: ", "; Max-Age=3600; Version=1";
    assert NoDashL(a) && NoDashL(b);
    assert CookieLine(h, id) == a + plain + b;
  }

  /** The line of the field and what it says. */
  lemma {:induction false} FieldHere(number: string, rest: string)
    requires Plain(number)
    ensures var s := LENGTH + number + CRLF + rest;
            Find(s, LENGTH) == Some(0) && s[16..] == number + CRLF + rest && Find(s[16..], CRLF) == Some(|number|)
            && (number + CRLF + rest)[..|number|] == number
  {
    var s := LENGTH + number + CRLF + rest;
    assert s[16..] == number + CRLF + rest;
    assert s[..16] == LENGTH && s[0..] == s;
    FindByFirst(s, LENGTH, 0);
    FindLineEnd(number, rest);
  }

  lemma DigitsPlain(number: string, n: int)
    requires Denotes(number, n)
    ensures Plain(number)
  {
    hide Number;
  }

  /** A message whose first lines lack the field and whose last header line is the field. */
  lemma {:induction false} LengthAtEnd(lines: seq<string>, number: string, tail: string)
    requires Header(lines + [LENGTH + number]) && (forall i :: 0 <= i < |lines| ==> Lacks(lines[i], LENGTH))
    requires Denotes(number, |tail|)
    ensures LengthIsTrue(Message(lines + [LENGTH + number], tail))
  {
    hide Find, Lacks, Denotes, Message, HeadEnd, Header;
    var all := lines + [LENGTH + number];
    DigitsPlain(number, |tail|);
    FieldAtEnd(lines, number, tail);
    BlankAtHeadEnd(all, tail);
    MessageTail(all, tail);
  }

  lemma {:induction false} MessageTail(lines: seq<string>, tail: string)
    requires lines != []
    ensures 0 <= HeadEnd(lines) && HeadEnd(lines) + 4 <= |Message(lines, tail)|
    ensures Message(lines, tail)[HeadEnd(lines) + 4..] == tail
  {
    if |lines| == 1 {
      assert lines[1..] == [];
      assert Message(lines, tail) == lines[0] + BLANK + tail;
    } else {
      MessageTail(lines[1..], tail);
    }
  }

  lemma {:induction false} FieldAtEnd(lines: seq<string>, number: string, tail: string)
    requires (forall i :: 0 <= i < |lines| ==> Lacks(lines[i], LENGTH)) && Plain(number)
    ensures var msg := Message(lines + [LENGTH + number], tail);
            var field := Find(msg, LENGTH);
            && field.Some? && field.value + 16 <= |msg|
            && var end := Find(msg[field.value + 16..], CRLF);
               end == Some(|number|) && |number| <= |msg[field.value + 16..]|
               && msg[field.value + 16..][..|number|] == number
  {
    hide Find, Lacks;
    var all := lines + [LENGTH + number];
    if lines == [] {
      assert all[1..] == [];
      assert Message(all, tail) == LENGTH + number + CRLF + (CRLF + tail);
      FieldHere(number, CRLF + tail);
    } else {
      assert all[1..] == lines[1..] + [LENGTH + number];
      FieldAtEnd(lines[1..], number, tail);
      var rest := Message(all[1..], tail);
      FieldBehind(lines[0], rest, LENGTH);
      var k := Find(rest, LENGTH).value;
      assert Message(all, tail)[|lines[0]| + 2 + k + 16..] == rest[k + 16..];
    }
  }

  /** The Content-Length of a plain message is the number of characters of its body. */
  lemma {:induction false} PlainLength(server: bool, data: seq<byte>)
    ensures LengthIsTrue(NormalText(server, data))
  {
    hide Encode, Decimal, Message, LengthIsTrue, Number;
    var number := Decimal(|Encode(data)|);
    DecimalDenotes(|Encode(data)|);
    NormalHeader(server, |Encode(data)|);
    assert NoDashL(StatusLine(server));
    LacksLength(StatusLine(server));
    assert LengthLine(|Encode(data)|) == LENGTH + number;
    assert [StatusLine(server)] + [LENGTH + number] == [StatusLine(server), LengthLine(|Encode(data)|)];
    LengthAtEnd([StatusLine(server)], number, Encode(data));
  }

  /** The Content-Length of a side-channel message is that of its page. */
  lemma {:induction false} ServerLength(size: Option<nat>, frag: seq<byte>)
    ensures LengthIsTrue(ServerText(size, frag))
  {
    hide Encode, Message, LengthIsTrue, DefaultPage, CookieLine, Be32, Lacks;
    var cookie := CookieLine(SizeText(size), Encode(frag));
    var lines := ["HTTP/1.1 200 OK", cookie, "Server: nginx/0.8.54", "Content-Type: text/html"];
    EncodeHasNoDash(frag);
    if size.Some? {
      EncodeHasNoDash(Be32(size.value));
    }
    CookieLacksLength(SizeText(size), Encode(frag));
    OtherLinesLackLength();
    LacksLength(cookie);
    ServerHeader(size, frag);
    PageLength();
    Denotes107();
    assert LENGTH + "107" == "Content-Length: 107";
    assert lines + [LENGTH + "107"] == [lines[0], lines[1], lines[2], lines[3], "Content-Length: 107"];
    LengthAtEnd(lines, "107", DefaultPage());
  }

  lemma OtherLinesLackLength()
    ensures Lacks("HTTP/1.1 200 OK", LENGTH) && Lacks("Server: nginx/0.8.54", LENGTH)
            && Lacks("Content-Type: text/html", LENGTH)
  {
    hide Lacks;
    assert NoDashL("HTTP/1.1 200 OK") && NoDashL("Server: nginx/0.8.54") && NoDashL("Content-Type: text/html");
    LacksLength("HTTP/1.1 200 OK");
    LacksLength("Server: nginx/0.8.54");
    LacksLength("Content-Type: text/html");
  }

  lemma Denotes107()
    ensures Denotes("107", 107)
  {
    assert "107"[..2] == "10" && "10"[..1] == "1" && "1"[..0] == "";
    assert Number("1") == 1 && Number("10") == 10 && Number("107") == 107;
  }
}
