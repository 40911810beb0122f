/** struct tp_http_ctx with the handlers that update it in place. Every handler is proved to
    do exactly what its counterpart in HttpTransport says, faults included. */
module HttpModule {
  import opened Wrappers
  import opened CText
  import Base64
  import opened HttpText
  import HttpTransport

  type byte = Base64.byte
  type Packet = HttpTransport.Packet

  lemma CStrIsCString(s: string)
    requires '\0' !in s
    ensures Base64.CString(s)
  {}

  /** memcpy */
  method MemCpy(dst: array<byte>, off: nat, src: seq<byte>)
    requires off + |src| <= dst.Length
    modifies dst
    ensures dst[..] == Splice(old(dst[..]), off, src)
  {
    for i := 0 to |src|
      invariant forall k :: 0 <= k < dst.Length ==> dst[k] == if off <= k < off + i then src[k - off] else old(dst[k])
    {
      dst[off + i] := src[i];
    }
  }

  /** The packet size in a Base64 text: pppoat_base64_dec into a 32-bit integer, then ntohl. */
  method ReadSize(text: string) returns (r: Result<nat, Fault>)
    requires Base64.CString(text)
    ensures r == ParseSize(text)
    ensures r.Ok? <==> Base64.IsValid(text) && Base64.DecLen(text) == 4
    ensures r.Ok? ==> var b := Base64.Decoded(text);
                      r.value == Base64.NatOf(b[0]) * 0x100_0000 + Base64.NatOf(b[1]) * 0x1_0000
                                 + Base64.NatOf(b[2]) * 0x100 + Base64.NatOf(b[3])
  {
    if |text| % 4 != 0 || Base64.DecLen(text) != 4 {
      return Err(Malformed);
    }
    var be := new byte[4];
    var rc := Base64.Dec(text, be);
    if rc != 0 {
      return Err(Malformed);
    }
    r := Ok(FromBe32(be[..]));
  }

  /** The view of a packet buffer that may be absent. */
  ghost function View(pkt: array?<byte>): Option<seq<byte>>
    reads pkt
  {
    if pkt == null then None else Some(pkt[..])
  }

  /** The outcome of a handler: a fault, or none and the state p. */
  ghost function Outcome(fault: Option<Fault>, p: Rx): Result<Rx, Fault> {
    if fault.Some? then Err(fault.value) else Ok(p)
  }

  /** What remains of the search once the line at rest has been handled with outcome r. */
  ghost function ScanOn(r: Result<Rx, Fault>, rest: string, left: int, half: bool,
                        junk: nat -> byte): Result<Rx, Fault> {
    match r
    case Err(f) => Err(f)
    case Ok(p) =>
      match Find(rest, CRLF)
      case None => Ok(p)
      case Some(n) => Scan(rest[n + 2..], left - n - 2, half, p, junk)
  }

  lemma ScanOnce(rest: string, left: int, half: bool, p: Rx, junk: nat -> byte)
    ensures Scan(rest, left, half, p, junk) ==
            if left <= 0 then Ok(p) else ScanOn(ParseLine(rest, half, p, junk), rest, left, half, junk)
  {
    hide ParseLine, Find;
  }

  lemma UptoIsCString(rest: string, start: nat, term: string)
    requires Base64.CString(rest) && start <= |rest| && term != ""
    ensures Upto(rest, start, term).Ok? ==> Base64.CString(Upto(rest, start, term).value)
  {}

  class TpHttp {
    const conf: HttpTransport.Conf
    var sendQ: seq<Packet>
    var recvQ: seq<Packet>
    var sendReady: bool
    var sendOffset: nat
    var recvPkt: array?<byte>
    var recvOffset: nat

    ghost function Sender(): HttpTransport.Tx
      reads this
    {
      HttpTransport.Tx(sendQ, sendOffset, sendReady)
    }

    ghost function Receiver(): HttpTransport.Receiver
      reads this, recvPkt
    {
      HttpTransport.Receiver(recvQ, View(recvPkt), recvOffset)
    }

    /** tp_http_init */
    constructor (c: HttpTransport.Conf)
      ensures conf == c && recvPkt == null
      ensures Sender() == HttpTransport.Tx([], 0, !c.server) && Receiver() == HttpTransport.Receiver([], None, 0)
    {
      conf := c;
      sendQ, recvQ, sendReady, sendOffset := [], [], !c.server, 0;
      recvPkt, recvOffset := null, 0;
    }

    /** Decodes the text of a fragment and copies it to the packet under assembly. */
    method StoreFragment(pkt: array?<byte>, size0: nat, text: string) returns (fault: Option<Fault>, size: nat)
      requires Base64.CString(text)
      modifies pkt
      ensures Store(old(Rx(View(pkt), recvOffset, size0)), text) == Outcome(fault, Rx(View(pkt), recvOffset, size))
    {
      size := size0;
      if pkt == null {
        return Some(NoPacket), size;
      }
      if |text| % 4 != 0 {
        return Some(Malformed), size;
      }
      var res := Base64.DecNew(text);
      if res.Err? {
        return Some(Malformed), size;
      }
      if recvOffset + |res.value| > pkt.Length {
        return Some(Overrun), size;
      }
      size := |res.value|;
      MemCpy(pkt, recvOffset, res.value);
      fault := None;
    }

    /** Takes a packet of the announced size from the pool. */
    method NewPacket(pkt0: array?<byte>, size0: nat, text: string, junk: nat -> byte)
      returns (fault: Option<Fault>, pkt: array?<byte>, size: nat)
      requires Base64.CString(text)
      modifies this`recvOffset
      ensures pkt == pkt0 || fresh(pkt)
      ensures Begin(old(Rx(View(pkt0), recvOffset, size0)), text, junk) ==
              Outcome(fault, Rx(View(pkt), recvOffset, size))
    {
      pkt, size := pkt0, size0;
      var n := ReadSize(text);
      if n.Err? {
        return Some(n.error), pkt, size;
      }
      pkt := new byte[n.value](i => junk(i));
      recvOffset, size, fault := 0, 0, None;
      assert pkt[..] == Recycled(n.value, junk);
    }

    method RequestBranch(rest: string, pkt0: array?<byte>, size0: nat, junk: nat -> byte)
      returns (fault: Option<Fault>, pkt: array?<byte>, size: nat)
      requires Base64.CString(rest)
      modifies this`recvOffset
      ensures pkt == pkt0 || fresh(pkt)
      ensures ParseRequest(rest, recvPkt != null, old(Rx(View(pkt0), recvOffset, size0)), junk) ==
              Outcome(fault, Rx(View(pkt), recvOffset, size))
    {
      pkt, size := pkt0, size0;
      var start := Find(rest, "?s=");
      if start.None? {
        return Some(Malformed), pkt, size;
      }
      if recvPkt != null {
        return Some(HalfBuilt), pkt, size;
      }
      var text := Upto(rest, start.value + 3, " ");
      if text.Err? {
        return Some(text.error), pkt, size;
      }
      UptoIsCString(rest, start.value + 3, " ");
      fault, pkt, size := NewPacket(pkt, size, text.value, junk);
    }

    method CookieBranch(rest: string, pkt0: array?<byte>, size0: nat, junk: nat -> byte)
      returns (fault: Option<Fault>, pkt: array?<byte>, size: nat)
      requires Base64.CString(rest)
      modifies this`recvOffset, pkt0
      ensures pkt == pkt0 || fresh(pkt)
      ensures ParseCookie(rest, old(Rx(View(pkt0), recvOffset, size0)), junk) ==
              Outcome(fault, Rx(View(pkt), recvOffset, size))
    {
      hide Begin, Store, Upto, View, Find, Base64.CString;
      fault, pkt, size := None, pkt0, size0;
      var start, end := Find(rest, " H="), Find(rest, CRLF);
      if start.Some? && end.Some? && start.value < end.value {
        var text := Upto(rest, start.value + 3, ";");
        if text.Err? {
          return Some(text.error), pkt, size;
        }
        UptoIsCString(rest, start.value + 3, ";");
        fault, pkt, size := NewPacket(pkt, size, text.value, junk);
        if fault.Some? {
          return;
        }
      }
      start := Find(rest, " ID=");
      if start.Some? && end.Some? && start.value < end.value {
        var text := Upto(rest, start.value + 4, ";");
        if text.Err? {
          return Some(text.error), pkt, size;
        }
        UptoIsCString(rest, start.value + 4, ";");
        fault, size := StoreFragment(pkt, size, text.value);
      }
    }

    method AuthBranch(rest: string, pkt: array?<byte>, size0: nat) returns (fault: Option<Fault>, size: nat)
      requires Base64.CString(rest) && AUTH <= rest
      modifies pkt
      ensures ParseAuth(rest, old(Rx(View(pkt), recvOffset, size0))) == Outcome(fault, Rx(View(pkt), recvOffset, size))
    {
      hide Store, View;
      var text := Upto(rest, |AUTH|, CRLF);
      if text.Err? {
        return Some(text.error), size0;
      }
      UptoIsCString(rest, |AUTH|, CRLF);
      fault, size := StoreFragment(pkt, size0, text.value);
    }

    /** The body of the search loop, at the line that rest starts with. */
    method NextLine(rest: string, pkt0: array?<byte>, size0: nat, junk: nat -> byte)
      returns (fault: Option<Fault>, pkt: array?<byte>, size: nat)
      requires Base64.CString(rest)
      modifies this`recvOffset, pkt0
      ensures pkt == pkt0 || fresh(pkt)
      ensures ParseLine(rest, recvPkt != null, old(Rx(View(pkt0), recvOffset, size0)), junk) ==
              Outcome(fault, Rx(View(pkt), recvOffset, size))
    {
      hide ParseRequest, ParseCookie, ParseAuth, View;
      fault, pkt, size := None, pkt0, size0;
      if CLIENT_SIZE <= rest {
        fault, pkt, size := RequestBranch(rest, pkt, size, junk);
      } else if SET_COOKIE <= rest {
        fault, pkt, size := CookieBranch(rest, pkt, size, junk);
      } else if AUTH <= rest {
        fault, size := AuthBranch(rest, pkt, size);
      }
    }

    /** The search loop of tp_http_recv_buf_sc, with ptr as an index into msg, or NULL. */
    method Search(msg: string, body: nat, junk: nat -> byte)
      returns (fault: Option<Fault>, pkt: array?<byte>, size: nat)
      requires Base64.CString(msg)
      modifies this`recvOffset, recvPkt
      ensures pkt == recvPkt || fresh(pkt)
      ensures Scan(msg, body, recvPkt != null, old(Rx(View(recvPkt), recvOffset, 0)), junk) ==
              Outcome(fault, Rx(View(pkt), recvOffset, size))
    {
      hide ParseLine, View, Scan, Find;
      fault, pkt, size := None, recvPkt, 0;
      var ptr := Some(0);
      ghost var result := Scan(msg, body, recvPkt != null, Rx(View(recvPkt), recvOffset, 0), junk);
      assert msg[0..] == msg;
      while ptr.Some? && ptr.value < body
        invariant pkt == recvPkt || fresh(pkt)
        invariant ptr.Some? ==> ptr.value <= |msg|
        invariant result == if ptr.None? then Ok(Rx(View(pkt), recvOffset, size))
                            else Scan(msg[ptr.value..], body - ptr.value, recvPkt != null,
                                Rx(View(pkt), recvOffset, size), junk)
        decreases if ptr.Some? then 1 + |msg| - ptr.value else 0
      {
        var rest := msg[ptr.value..];
        ScanOnce(rest, body - ptr.value, recvPkt != null, Rx(View(pkt), recvOffset, size), junk);
        fault, pkt, size := NextLine(rest, pkt, size, junk);
        if fault.Some? {
          return;
        }
        var next := Find(rest, CRLF);
        ptr := if next.Some? then Some(ptr.value + next.value + 2) else None;
        assert next.Some? ==> rest[next.value + 2..] == msg[ptr.value..];
      }
      fault := None;
      if ptr.Some? {
        ScanOnce(msg[ptr.value..], body - ptr.value, recvPkt != null, Rx(View(pkt), recvOffset, size), junk);
      }
    }

    /** tp_http_recv_buf_sc */
    method RecvBufSc(buf: string, junk: nat -> byte) returns (r: Result<bool, Fault>)
      modifies this`recvQ, this`recvPkt, this`recvOffset, recvPkt
      ensures r.Err? ==> HttpTransport.RecvSc(old(Receiver()), CStr(buf), junk) == Err(r.error)
      ensures r.Ok? ==> HttpTransport.RecvSc(old(Receiver()), CStr(buf), junk) == Ok((Receiver(), r.value))
    {
      hide Scan, Find, CStr;
      var msg := CStr(buf);
      CStrIsCString(msg);
      var body := Find(msg, BLANK);
      if body.None? {
        return Ok(false);
      }
      var fault, pkt, size := Search(msg, body.value, junk);
      if fault.Some? {
        return Err(fault.value);
      }
      var isData := Settle(pkt, size);
      r := Ok(isData);
    }

    /** The end of tp_http_recv_buf_sc: hands a complete packet over. */
    method Settle(pkt: array?<byte>, size: nat) returns (isData: bool)
      modifies this`recvQ, this`recvPkt, this`recvOffset
      ensures HttpTransport.Settle(old(Receiver()), Rx(View(pkt), old(recvOffset), size)) == (Receiver(), isData)
    {
      recvOffset := recvOffset + size;
      recvPkt := pkt;
      if pkt != null && recvOffset >= pkt.Length {
        recvQ := recvQ + [pkt[..]];
        recvPkt := null;
        recvOffset := 0;
      }
      isData := size != 0;
    }

    /** tp_http_recv_buf_normal */
    method RecvBufNormal(buf: string) returns (r: Result<bool, Fault>)
      modifies this`recvQ
      ensures r.Err? ==> HttpTransport.RecvNormal(old(Receiver()), CStr(buf)) == Err(r.error)
      ensures r.Ok? ==> HttpTransport.RecvNormal(old(Receiver()), CStr(buf)) == Ok((Receiver(), r.value))
    {
      hide Find, CStr;
      var msg := CStr(buf);
      CStrIsCString(msg);
      var body := Find(msg, BLANK);
      if body.None? {
        return Ok(false);
      }
      var field := Find(msg, CONTENT_LENGTH);
      if field.None? || field.value >= body.value {
        return Ok(false);
      }
      var text := msg[body.value + 4..];
      if |text| % 4 != 0 {
        return Err(Malformed);
      }
      var data := Base64.DecNew(text);
      if data.Err? {
        return Err(Malformed);
      }
      recvQ := recvQ + [data.value];
      r := Ok(true);
    }

    /** tp_http_recv_buf */
    method RecvBuf(buf: string, junk: nat -> byte) returns (r: Result<bool, Fault>)
      modifies this`recvQ, this`recvPkt, this`recvOffset, recvPkt
      ensures r.Err? ==> HttpTransport.RecvBuf(conf, old(Receiver()), buf, junk) == Err(r.error)
      ensures r.Ok? ==> HttpTransport.RecvBuf(conf, old(Receiver()), buf, junk) == Ok((Receiver(), r.value))
    {
      hide HttpTransport.RecvSc, HttpTransport.RecvNormal;
      if conf.sideChannel {
        r := RecvBufSc(buf, junk);
      } else {
        r := RecvBufNormal(buf);
      }
    }

    // ----- Sending; every method returns the bytes it writes -----

    /** tp_http_send_client_sc and tp_http_send_server_sc: one fragment of the packet at the
        front, built piece by piece as the source does. */
    method SendFragment() returns (r: Result<string, Fault>)
      requires sendQ != [] && sendOffset <= |sendQ[0]| && conf.sideChannel
      modifies this`sendQ, this`sendOffset
      ensures var text := HttpTransport.DataText(conf, old(sendQ)[0], old(sendOffset));
              if |text| >= BUF then r == Err(Overrun) && sendQ == old(sendQ) && sendOffset == old(sendOffset)
              else r == Ok(text) && HttpTransport.Advance(conf, old(Sender())) == Sender().(ready := false)
    {
      var pkt := sendQ[0];
      var size := HttpTransport.Min(HttpTransport.MAX_DATA, |pkt| - sendOffset);
      var frag := pkt[sendOffset..sendOffset + size];
      var buf: string;
      if conf.server {
        buf := BuildServer(if sendOffset == 0 then Some(|pkt|) else None, frag);
      } else {
        buf := BuildClient(if sendOffset == 0 then Some(|pkt|) else None, frag);
      }
      if |buf| >= BUF {
        return Err(Overrun);
      }
      sendOffset := sendOffset + size;
      if sendOffset >= |pkt| {
        sendOffset := 0;
        sendQ := sendQ[1..];
      }
      r := Ok(buf);
    }

    method BuildClient(size: Option<nat>, frag: seq<byte>) returns (buf: string)
      ensures buf == ClientText(conf.remote, size, frag)
    {
      hide Base64.Encode, Be32;
      buf := "GET /index.php";
      if size.Some? {
        var b64 := Base64.EncNew(Be32(size.value));
        buf := buf + "?s=" + b64;
      }
      buf := buf + " HTTP/1.1\r\n";
      assert buf == RequestLine(size) + CRLF;
      var host := "Host: " + conf.remote + ":8080\r\n";
      assert host == "Host: " + conf.remote + ":8080" + CRLF;
      var agent := "User-Agent: Mozilla/5.0 " + "(X11; Linux x86_64; " + "rv:12.0) Gecko/20100101 "
          + "Firefox/12.0\r\n";
      assert agent == UserAgent() + CRLF;
      buf := buf + host + agent + "Authorization: ";
      var b64 := Base64.EncNew(frag);
      buf := buf + b64 + "\r\n";
      buf := buf + "\r\n";
      FourLines(RequestLine(size), "Host: " + conf.remote + ":8080", UserAgent(), AuthLine(frag), "");
    }

    method BuildServer(size: Option<nat>, frag: seq<byte>) returns (buf: string)
      ensures buf == ServerText(size, frag)
    {
      hide Base64.Encode, Be32;
      buf := "HTTP/1.1 200 OK\r\n";
      var cookie := "Set-Cookie: ";
      if size.Some? {
        var h := Base64.EncNew(Be32(size.value));
        cookie := cookie + "H=" + h + "; ";
      }
      var id := Base64.EncNew(frag);
      cookie := cookie + "ID=" + id + "; Max-Age=3600; Version=1\r\n";
      assert cookie == CookieLine(SizeText(size), Base64.Encode(frag)) + CRLF;
      var trailer := "Server: nginx/0.8.54\r\n" + "Content-Type: text/html\r\n" + "Content-Length: 107\r\n" + "\r\n";
      buf := buf + cookie + trailer;
      buf := buf + "<html><head><title>Default " + "page</title></head><body>" + "<center><h1>Server works!</h1>"
          + "</center></body></html>\r\n";
      FiveLines(CookieLine(SizeText(size), Base64.Encode(frag)), DefaultPage());
    }

    /** tp_http_send_next_normal */
    method SendNextNormal() returns (r: Result<string, Fault>)
      requires !conf.sideChannel && HttpTransport.Sendable(Sender())
      modifies this`sendQ, this`sendReady
      ensures r.Err? ==> HttpTransport.SendNext(conf, old(Sender())) == Err(r.error)
      ensures r.Ok? ==> HttpTransport.SendNext(conf, old(Sender())) == Ok((Sender(), r.value))
    {
      hide Base64.Encode, NormalText;
      sendReady := sendQ == [];
      if sendQ == [] {
        return Ok("");
      }
      var pkt := sendQ[0];
      sendQ := sendQ[1..];
      var buf := BuildNormal(pkt);
      r := if |buf| >= BUF then Err(Overrun) else Ok(buf);
    }

    method BuildNormal(pkt: Packet) returns (buf: string)
      ensures buf == NormalText(conf.server, pkt)
    {
      hide Base64.Encode, Decimal;
      var base64 := Base64.EncNew(pkt);
      var number := Decimal(|base64|);
      buf := if conf.server then "HTTP/1.1 200 OK\r\n" else "POST / HTTP/1.1\r\n";
      buf := buf + "Content-Length: " + number + "\r\n\r\n" + base64;
      TwoLines(StatusLine(conf.server), LengthLine(|base64|), base64);
    }

    /** tp_http_send_next_sc */
    method SendNextSc() returns (r: Result<string, Fault>)
      requires conf.sideChannel && HttpTransport.Sendable(Sender())
      modifies this`sendQ, this`sendReady, this`sendOffset
      ensures r.Err? ==> HttpTransport.SendNext(conf, old(Sender())) == Err(r.error)
      ensures r.Ok? ==> HttpTransport.SendNext(conf, old(Sender())) == Ok((Sender(), r.value))
    {
      hide HttpTransport.DataText;
      sendReady := sendQ == [];
      if sendQ == [] {
        return Ok("");
      }
      r := SendFragment();
    }

    /** tp_http_send_next */
    method SendNext() returns (r: Result<string, Fault>)
      requires HttpTransport.Sendable(Sender())
      modifies this`sendQ, this`sendReady, this`sendOffset
      ensures r.Err? ==> HttpTransport.SendNext(conf, old(Sender())) == Err(r.error)
      ensures r.Ok? ==> HttpTransport.SendNext(conf, old(Sender())) == Ok((Sender(), r.value))
    {
      if conf.sideChannel {
        r := SendNextSc();
      } else {
        r := SendNextNormal();
      }
    }

    /** tp_http_pkt_send */
    method PktSend(pkt: Packet) returns (r: Result<string, Fault>)
      requires HttpTransport.Sendable(Sender()) && (sendQ == [] ==> sendOffset == 0)
      modifies this`sendQ, this`sendReady, this`sendOffset
      ensures r.Err? ==> HttpTransport.PktSend(conf, old(Sender()), pkt) == Err(r.error)
      ensures r.Ok? ==> HttpTransport.PktSend(conf, old(Sender()), pkt) == Ok((Sender(), r.value))
    {
      hide HttpTransport.SendNext;
      sendQ := sendQ + [pkt];
      if sendReady {
        r := SendNext();
      } else {
        r := Ok("");
      }
    }

    /** tp_http_pkt_recv */
    method PktRecv() returns (pkt: Option<Packet>)
      modifies this`recvQ
      ensures HttpTransport.PktRecv(old(Receiver())) == (Receiver(), pkt)
    {
      if recvQ == [] {
        return None;
      }
      pkt := Some(recvQ[0]);
      recvQ := recvQ[1..];
    }

    /** tp_http_worker before its loop: the bytes written to conn[1]. */
    method Open() returns (out: string)
      ensures out == if conf.server then "" else "GET / HTTP/1.1\r\n\r\n"
    {
      BareTexts();
      out := "";
      if !conf.server {
        out := GetText();
      }
    }

    /** tp_http_worker, once a message has been read: the bytes written back. */
    method HandleMessage(buf: string, junk: nat -> byte) returns (r: Result<string, Fault>)
      requires HttpTransport.Sendable(Sender())
      modifies this, recvPkt
      ensures r.Err? ==> HttpTransport.HandleMessage(conf, old(Sender()), old(Receiver()), buf, junk) == Err(r.error)
      ensures r.Ok? ==>
                HttpTransport.HandleMessage(conf, old(Sender()), old(Receiver()), buf, junk) ==
                Ok((Sender(), Receiver(), r.value))
      ensures var x := HttpTransport.RecvBuf(conf, old(Receiver()), buf, junk);
              x.Ok? && x.value.1 ==>
                r == Ok(if conf.server then "HTTP/1.1 200 OK\r\n\r\n" else "GET / HTTP/1.1\r\n\r\n")
    {
      hide HttpTransport.SendNext, HttpTransport.RecvBuf, RespText, GetText;
      BareTexts();
      var isData := RecvBuf(buf, junk);
      if isData.Err? {
        return Err(isData.error);
      }
      if !isData.value {
        r := SendNext();
      } else if conf.server {
        r := Ok(RespText());
      } else {
        r := Ok(GetText());
      }
    }

    /** tp_http_fini: every packet the module still holds goes back to the pool, once. */
    method Fini() returns (puts: seq<seq<byte>>)
      modifies this`recvQ, this`sendQ
      ensures puts == old(recvQ) + old(sendQ) + (if recvPkt == null then [] else [recvPkt[..]])
      ensures recvQ == [] && sendQ == []
    {
      puts := [];
      while recvQ != []
        invariant puts + recvQ == old(recvQ) && sendQ == old(sendQ)
        decreases |recvQ|
      {
        puts := puts + [recvQ[0]];
        recvQ := recvQ[1..];
      }
      assert puts == old(recvQ);
      while sendQ != []
        invariant recvQ == [] && puts + sendQ == old(recvQ) + old(sendQ)
        decreases |sendQ|
      {
        puts := puts + [sendQ[0]];
        sendQ := sendQ[1..];
      }
      if recvPkt != null {
        puts := puts + [recvPkt[..]];
      }
    }
  }
}
