/** The C string functions the HTTP transport searches its messages with. A pointer into a
    message is represented by the rest of the message that starts there. */
module CText {
  import opened Wrappers

  const CRLF: string := "\r\n"
  const BLANK: string := "\r\n\r\n"

  /** pat occurs in s at position i; strncmp(s + i, pat, strlen(pat)) == 0. */
  ghost predicate At(s: string, i: nat, pat: string) {
    i <= |s| && pat <= s[i..]
  }

  /** strstr: the position of the first occurrence. */
  function Find(s: string, pat: string): (r: Option<nat>)
    requires pat != ""
    ensures r.Some? ==> At(s, r.value, pat) && forall i :: 0 <= i < r.value ==> !At(s, i, pat)
    ensures r.None? ==> forall i: nat :: !At(s, i, pat)
    decreases |s|
  {
    if pat <= s then Some(0)
    else if s == "" then None
    else
      AtShift(s, pat);
      match Find(s[1..], pat)
      case None => None
      case Some(k) => Some(k + 1)
  }

  lemma AtShift(s: string, pat: string)
    requires s != ""
    ensures forall i: nat {:trigger At(s, i, pat)} :: 1 <= i ==> At(s, i, pat) == At(s[1..], i - 1, pat)
  {
    forall i: nat | 1 <= i ensures At(s, i, pat) == At(s[1..], i - 1, pat) {
      assert i <= |s| ==> s[i..] == s[1..][i - 1..];
    }
  }

  /** The first occurrence is unique. */
  lemma FindIs(s: string, pat: string, k: nat)
    requires pat != "" && At(s, k, pat)
    requires forall i :: 0 <= i < k ==> !At(s, i, pat)
    ensures Find(s, pat) == Some(k)
  {}

  lemma NotAt(s: string, i: nat, pat: string)
    requires i < |s| && pat != "" && s[i] != pat[0]
    ensures !At(s, i, pat)
  {
    assert s[i..][0] == s[i];
  }

  lemma NotAtSecond(s: string, i: nat, pat: string)
    requires i + 1 < |s| && |pat| > 1 && s[i + 1] != pat[1]
    ensures !At(s, i, pat)
  {
    assert s[i..][1] == s[i + 1];
  }

  /** strstr for a pattern whose first character does not occur before k. */
  lemma FindByFirst(s: string, pat: string, k: nat)
    requires pat != "" && At(s, k, pat)
    requires forall i :: 0 <= i < k ==> s[i] != pat[0]
    ensures Find(s, pat) == Some(k)
  {
    forall i | 0 <= i < k ensures !At(s, i, pat) {
      NotAt(s, i, pat);
    }
  }

  /** The bytes of a buffer up to the first NUL: what the string functions see of it. */
  function CStr(buf: string): (s: string)
    ensures s <= buf && '\0' !in s
    ensures s == buf || buf[|s|] == '\0'
    ensures '\0' !in buf ==> s == buf
  {
    if buf == "" || buf[0] == '\0' then ""
    else
      var t := CStr(buf[1..]);
      assert forall c :: c in t ==> c in buf[1..];
      [buf[0]] + t
  }

  // ----- Header lines -----

  ghost predicate Plain(s: string) { forall i :: 0 <= i < |s| ==> s[i] != '\r' && s[i] != '\0' }

  /** A line that may hold anything but a NUL and the end of a line. */
  ghost predicate Unbroken(s: string) {
    && (forall i :: 0 <= i < |s| ==> s[i] != '\0')
    && (forall i :: 0 <= i < |s| - 1 ==> !(s[i] == '\r' && s[i + 1] == '\n'))
  }

  lemma PlainIsUnbroken(s: string)
    requires Plain(s)
    ensures Unbroken(s)
  {}

  lemma UnbrokenBetween(a: string, s: string, b: string)
    requires Plain(a) && Unbroken(s) && Plain(b) && b != "" && b[0] != '\n'
    ensures Unbroken(a + s + b)
  {}

  lemma PlainConcat(s: string, t: string)
    requires Plain(s) && Plain(t)
    ensures Plain(s + t)
  {}

  lemma NoLineEndInside(line: string, rest: string, i: nat)
    requires Unbroken(line) && i < |line|
    ensures !At(line + CRLF + rest, i, CRLF)
  {
    var s := line + CRLF + rest;
    if line[i] == '\r' {
      assert s[i + 1] == if i + 1 < |line| then line[i + 1] else '\r';
      NotAtSecond(s, i, CRLF);
    } else {
      NotAt(s, i, CRLF);
    }
  }

  lemma FindLineEnd(line: string, rest: string)
    requires Unbroken(line)
    ensures Find(line + CRLF + rest, CRLF) == Some(|line|)
  {
    hide At;
    var s := line + CRLF + rest;
    forall i | 0 <= i < |line| ensures !At(s, i, CRLF) { NoLineEndInside(line, rest, i); }
    AtAfter(line, CRLF, rest);
    FindIs(s, CRLF, |line|);
  }

  lemma AtAfter(a: string, pat: string, b: string)
    ensures At(a + pat + b, |a|, pat)
  {
    assert (a + pat + b)[|a|..] == pat + b;
  }

  lemma BlankIsLineEnd(s: string, i: nat)
    requires At(s, i, BLANK)
    ensures At(s, i, CRLF)
  {
    assert BLANK[..2] == CRLF;
  }

  lemma NoBlankInside(line: string, rest: string, i: nat)
    requires Unbroken(line) && i < |line|
    ensures !At(line + CRLF + rest, i, BLANK)
  {
    NoLineEndInside(line, rest, i);
    if At(line + CRLF + rest, i, BLANK) {
      BlankIsLineEnd(line + CRLF + rest, i);
    }
  }

  lemma FindBlankHere(line: string, tail: string)
    requires Unbroken(line)
    ensures Find(line + CRLF + CRLF + tail, BLANK) == Some(|line|)
  {
    hide At;
    var s := line + CRLF + CRLF + tail;
    assert s == line + CRLF + (CRLF + tail) == line + BLANK + tail;
    forall i | 0 <= i < |line| ensures !At(s, i, BLANK) { NoBlankInside(line, CRLF + tail, i); }
    AtAfter(line, BLANK, tail);
    FindIs(s, BLANK, |line|);
  }

  /** A non-empty line does not start with the end of one. */
  lemma NoLineEndFirst(line: string, rest: string)
    requires Unbroken(line) && line != ""
    ensures !(CRLF <= line + CRLF + rest)
  {
    NoLineEndInside(line, rest, 0);
  }

  lemma NoBlankAcross(rest: string)
    requires !(CRLF <= rest)
    ensures !(BLANK <= CRLF + rest)
  {
    assert BLANK <= CRLF + rest ==> (CRLF + rest)[2..4] == CRLF;
    assert |rest| >= 2 ==> (CRLF + rest)[2..4] == rest[..2];
  }

  lemma FindSkips(s: string, pat: string)
    requires pat != "" && s != "" && !(pat <= s) && Find(s[1..], pat).Some?
    ensures Find(s, pat) == Some(1 + Find(s[1..], pat).value)
  {}

  lemma {:induction false} FindBlankLater(line: string, rest: string)
    requires Unbroken(line) && !(CRLF <= rest) && Find(rest, BLANK).Some?
    ensures Find(line + CRLF + rest, BLANK) == Some(|line| + 2 + Find(rest, BLANK).value)
  {
    hide Find, At;
    var s := line + CRLF + rest;
    if line == "" {
      NoBlankAcross(rest);
      assert s == CRLF + rest && s[1..] == "\n" + rest && s[1..][1..] == rest;
      assert s[1..][0] != BLANK[0];
      FindSkips(s[1..], BLANK);
    } else {
      assert s[1..] == line[1..] + CRLF + rest;
      FindBlankLater(line[1..], rest);
      NoLineEndFirst(line, rest);
      assert BLANK[..2] == CRLF;
    }
    FindSkips(s, BLANK);
  }
}
