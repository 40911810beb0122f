/** What the sources of src/conf_file.c and src/conf_argv.c mean: the key/value pairs they list
    and the value each key has in the end. */
module ConfSyntax {
  import opened Wrappers
  import opened CText

  type Pair = (string, string)

  // ----- Trimming -----

  /** is_whitespace */
  predicate White(c: char) { c == ' ' || c == '\t' || c == '\n' || c == '\r' }

  function SkipWhite(s: string): string {
    if s != "" && White(s[0]) then SkipWhite(s[1..]) else s
  }

  function DropWhite(s: string): string {
    if s != "" && White(s[|s| - 1]) then DropWhite(s[..|s| - 1]) else s
  }

  function Trim(s: string): string { DropWhite(SkipWhite(s)) }

  /** The characters that may pad a key, a value or the name of a section. */
  ghost predicate Padding(c: char) { c == ' ' || c == '\t' || c == '\n' || c == '\r' }

  ghost predicate Blank(s: string) { forall i :: 0 <= i < |s| ==> Padding(s[i]) }

  ghost predicate Tight(s: string) { s != "" ==> !Padding(s[0]) && !Padding(s[|s| - 1]) }

  lemma {:induction false} SkipWhiteIs(a: string, t: string)
    requires Blank(a) && (t != "" ==> !Padding(t[0]))
    ensures SkipWhite(a + t) == t
  {
    if a == "" {
      assert a + t == t;
    } else {
      assert (a + t)[1..] == a[1..] + t;
      SkipWhiteIs(a[1..], t);
    }
  }

  lemma {:induction false} DropWhiteIs(t: string, b: string)
    requires Blank(b) && (t != "" ==> !Padding(t[|t| - 1]))
    ensures DropWhite(t + b) == t
  {
    if b == "" {
      assert t + b == t;
    } else {
      assert (t + b)[..|t + b| - 1] == t + b[..|b| - 1];
      DropWhiteIs(t, b[..|b| - 1]);
    }
  }

  /** Trimming takes white space off both ends of any text ... */
  lemma TrimIs(a: string, t: string, b: string)
    requires Blank(a) && Tight(t) && Blank(b)
    ensures Trim(a + t + b) == t
  {
    if t == "" {
      SkipWhiteIs(a + b, "");
      assert a + t + b == a + b + "";
    } else {
      SkipWhiteIs(a, t + b);
      assert a + (t + b) == a + t + b;
      DropWhiteIs(t, b);
    }
  }

  /** ... and nothing else. */
  lemma TrimSplits(s: string) returns (a: string, b: string)
    ensures s == a + Trim(s) + b && Blank(a) && Tight(Trim(s)) && Blank(b)
  {
    var i := 0;
    while i < |s| && White(s[i])
      invariant i <= |s| && Blank(s[..i])
    {
      i := i + 1;
    }
    var j := |s|;
    while j > i && White(s[j - 1])
      invariant i <= j <= |s| && Blank(s[j..])
    {
      j := j - 1;
    }
    a, b := s[..i], s[j..];
    assert s == a + s[i..j] + b;
    TrimIs(a, s[i..j], b);
  }

  // ----- Lines of a file -----

  const LINE_MAX: nat := 256

  /** The characters fgets takes, if there is room for so many. */
  function LineLen(data: string, room: nat): (n: nat)
    ensures n <= |data| && n <= room && (data != "" && room > 0 ==> n > 0)
    ensures forall i :: 0 <= i < n - 1 ==> data[i] != '\n'
    ensures n == |data| || n == room || (n > 0 && data[n - 1] == '\n')
  {
    if data == "" || room == 0 then 0
    else if data[0] == '\n' then 1
    else
      var n := LineLen(data[1..], room - 1);
      assert forall i :: 0 <= i < n ==> data[1..][i] == data[i + 1];
      1 + n
  }

  /** The read error of a file that fails comes before the newline and before the buffer is
      full, and fgets returns nothing of that line. */
  predicate Cut(data: string, n: nat, fails: bool)
    requires n <= |data|
  {
    fails && n == |data| && n < LINE_MAX - 1 && (n == 0 || data[n - 1] != '\n')
  }

  /** What the successive calls of fgets return. */
  function Chunks(data: string, fails: bool): seq<string>
    decreases |data|
  {
    var n := LineLen(data, LINE_MAX - 1);
    if n == 0 || Cut(data, n, fails) then [] else [data[..n]] + Chunks(data[n..], fails)
  }

  /** The lines of a text, each with its newline. */
  function Lines(data: string): seq<string>
    decreases |data|
  {
    if data == "" then []
    else
      var n := LineLen(data, |data|);
      [data[..n]] + Lines(data[n..])
  }

  lemma {:induction false} MoreRoom(data: string, room: nat, more: nat)
    requires room <= more
    ensures LineLen(data, room) == if LineLen(data, more) <= room then LineLen(data, more) else room
  {
    if data != "" && room > 0 && data[0] != '\n' {
      MoreRoom(data[1..], room - 1, more - 1);
    }
  }

  /** A line is read as one line exactly when it fits in the buffer. */
  lemma {:induction false} ReadsWholeLines(data: string)
    ensures Chunks(data, false) == Lines(data) <==> forall i :: 0 <= i < |Lines(data)| ==> |Lines(data)[i]| <= 255
    decreases |data|
  {
    hide LineLen;
    if data != "" {
      var n, m := LineLen(data, LINE_MAX - 1), LineLen(data, |data|);
      MoreRoom(data, LINE_MAX - 1, if |data| > LINE_MAX - 1 then |data| else LINE_MAX - 1);
      MoreRoom(data, |data|, if |data| > LINE_MAX - 1 then |data| else LINE_MAX - 1);
      var ls := Lines(data);
      assert ls[0] == data[..m] && ls[1..] == Lines(data[m..]);
      assert Chunks(data, false)[0] == data[..n] && Chunks(data, false)[1..] == Chunks(data[n..], false);
      if m < LINE_MAX {
        assert n == m;
        ReadsWholeLines(data[n..]);
        assert forall i :: 0 <= i < |ls[1..]| ==> ls[1..][i] == ls[i + 1];
        assert forall i :: 1 <= i < |ls| ==> ls[i] == ls[1..][i - 1];
      } else {
        assert |ls[0]| >= LINE_MAX && |Chunks(data, false)[0]| < LINE_MAX;
      }
    }
  }

  /** A read error loses the unfinished last line, if it is shorter than the buffer, and nothing
      else. */
  lemma {:induction false} ReadErrorLoses(data: string)
    ensures var whole := Chunks(data, false);
            var last := if whole == [] then "" else whole[|whole| - 1];
            var lost := last != "" && |last| < 255 && last[|last| - 1] != '\n';
            Chunks(data, true) == if lost then whole[..|whole| - 1] else whole
    decreases |data|
  {
    hide LineLen;
    var n := LineLen(data, LINE_MAX - 1);
    if n != 0 {
      var first, rest := data[..n], Chunks(data[n..], false);
      ReadErrorLoses(data[n..]);
      assert Chunks(data, false) == [first] + rest;
      if n == |data| {
        assert rest == [] && Chunks(data[n..], true) == [];
        assert ([first] + rest)[..0] == [];
      } else {
        assert rest != [];
        assert ([first] + rest)[..|rest|] == [first] + rest[..|rest| - 1];
      }
    }
  }

  function Join(ls: seq<string>): string { if ls == [] then "" else ls[0] + Join(ls[1..]) }

  /** Nothing of a file is lost or read twice ... */
  lemma {:induction false} ReadsEverything(data: string)
    ensures Join(Chunks(data, false)) == data
    decreases |data|
  {
    hide LineLen;
    if data != "" {
      var n := LineLen(data, LINE_MAX - 1);
      ReadsEverything(data[n..]);
      assert data == data[..n] + data[n..];
    }
  }

  /** A line ends at its newline, and only the last one may lack it. */
  ghost predicate EndsAtNewline(l: string, last: bool) {
    l != "" && '\n' !in l[..|l| - 1] && (l[|l| - 1] == '\n' || last)
  }

  lemma {:induction false} LinesJoin(data: string)
    ensures Join(Lines(data)) == data
    decreases |data|
  {
    hide LineLen;
    if data != "" {
      var n := LineLen(data, |data|);
      LinesJoin(data[n..]);
      assert data == data[..n] + data[n..];
    }
  }

  /** ... and the lines end at the newlines. */
  lemma {:induction false} LinesEndAtNewlines(data: string)
    ensures Join(Lines(data)) == data
    ensures var ls := Lines(data); forall i :: 0 <= i < |ls| ==> EndsAtNewline(ls[i], i == |ls| - 1)
    decreases |data|
  {
    hide LineLen, EndsAtNewline, Join;
    LinesJoin(data);
    if data != "" {
      var ls := Lines(data);
      var rest := data[LineLen(data, |data|)..];
      LinesEndAtNewlines(rest);
      FirstLineEnds(data);
      forall i | 0 < i < |ls| ensures EndsAtNewline(ls[i], i == |ls| - 1) {
        assert ls[i] == Lines(rest)[i - 1];
      }
    }
  }

  lemma FirstLineEnds(data: string)
    requires data != ""
    ensures var n := LineLen(data, |data|); EndsAtNewline(data[..n], Lines(data[n..]) == [])
  {
    hide LineLen;
    var n := LineLen(data, |data|);
    assert data[..n][..n - 1] == data[..n - 1];
  }

  // ----- What a line says -----

  datatype Line = Section(name: string) | Skip | Entry(key: string, val: string) | Bad

  /** The cases of the loop of pppoat_conf_read_file, for a line cut at its first NUL. */
  function Classify(chunk: string): Line { ClassifyTrimmed(Trim(CStr(chunk))) }

  function ClassifyTrimmed(s: string): Line {
    if s != "" && s[0] == '[' && s[|s| - 1] == ']' then Section(Trim(s[1..|s| - 1]))
    else if s == "" || s[0] == '#' then Skip
    else
      match Find(s, "=")
      case None => Bad
      case Some(i) => Entry(Trim(s[..i]), Trim(s[i + 1..]))
  }

  lemma BlankIsClean(s: string)
    requires Blank(s)
    ensures '\0' !in s && '=' !in s
  {}

  /** Spaces around a section do not matter. */
  lemma SectionText(a: string, b: string, name: string, c: string, d: string)
    requires Blank(a) && Blank(b) && Blank(c) && Blank(d) && Tight(name) && '\0' !in name
    ensures Classify(a + "[" + b + name + c + "]" + d) == Section(name)
  {
    hide Trim, CStr;
    var s := "[" + b + name + c + "]";
    var chunk := a + "[" + b + name + c + "]" + d;
    BlankIsClean(a); BlankIsClean(b); BlankIsClean(c); BlankIsClean(d);
    assert chunk == a + s + d;
    TrimIs(a, s, d);
    assert s[1..|s| - 1] == b + name + c;
    TrimIs(b, name, c);
  }

  /** A line of white space, and one whose first other character is '#', say nothing. */
  lemma SkipText(a: string, t: string, b: string)
    requires Blank(a) && Tight(t) && Blank(b) && '\0' !in t && (t == "" || t[0] == '#')
    ensures Classify(a + t + b) == Skip
  {
    hide Trim, CStr;
    BlankIsClean(a); BlankIsClean(b);
    TrimIs(a, t, b);
  }

  /** Any other line without '=' that is no section cannot be read. */
  lemma BadText(a: string, t: string, b: string)
    requires Blank(a) && Tight(t) && Blank(b) && '\0' !in t && '=' !in t
    requires t != "" && t[0] != '#' && !(t[0] == '[' && t[|t| - 1] == ']')
    ensures Classify(a + t + b) == Bad
  {
    hide Trim, CStr, Find;
    BlankIsClean(a); BlankIsClean(b);
    TrimIs(a, t, b);
    forall i: nat ensures !At(t, i, "=") {
      if i < |t| {
        NotAt(t, i, "=");
      }
    }
  }

  /** Nothing behind a NUL is read. */
  lemma NulEndsLine(chunk: string, more: string)
    ensures Classify(chunk + "\0" + more) == Classify(chunk)
  {
    hide ClassifyTrimmed, Trim;
    CStrStops(chunk, more);
  }

  lemma {:induction false} CStrStops(s: string, more: string)
    ensures CStr(s + "\0" + more) == CStr(s)
  {
    if s != "" {
      assert (s + "\0" + more)[1..] == s[1..] + "\0" + more;
      CStrStops(s[1..], more);
    }
  }

  lemma FirstEquals(k: string, rest: string)
    requires '=' !in k
    ensures Find(k + "=" + rest, "=") == Some(|k|)
  {
    var s := k + "=" + rest;
    assert s[|k|..] == "=" + rest;
    assert forall i :: 0 <= i < |k| ==> s[i] == k[i];
    FindByFirst(s, "=", |k|);
  }

  /** A trimmed line that starts with front, up to its first '=', and goes on with back. */
  lemma ClassifyEntry(chunk: string, front: string, back: string)
    requires Trim(CStr(chunk)) == front + "=" + back && '=' !in front
    ensures if front != "" && front[0] == '[' && back != "" && back[|back| - 1] == ']' then Classify(chunk).Section?
            else Classify(chunk) == if front != "" && front[0] == '#' then Skip else Entry(Trim(front), Trim(back))
  {
    hide Trim, CStr, Find;
    var s := front + "=" + back;
    FirstEquals(front, back);
    assert s[..|front|] == front && s[|front| + 1..] == back;
    assert s[0] == if front == "" then '=' else front[0];
    assert s[|s| - 1] == if back == "" then '=' else back[|back| - 1];
  }

  /** The text of an entry once the white space around it is gone. */
  lemma EntryTrims(a: string, k: string, b: string, c: string, v: string, d: string)
    requires Blank(a) && Blank(b) && Blank(c) && Blank(d) && Tight(k) && Tight(v)
    ensures Trim(a + k + b + "=" + c + v + d) == (if k == "" then "" else k + b) + "=" + (if v == "" then "" else c + v)
  {
    hide Trim;
    var s := (if k == "" then "" else k + b) + "=" + (if v == "" then "" else c + v);
    var a' := if k == "" then a + b else a;
    var d' := if v == "" then c + d else d;
    assert a + k + b + "=" + c + v + d == a' + s + d';
    assert k != "" ==> s[0] == k[0];
    assert v != "" ==> s[|s| - 1] == v[|v| - 1];
    TrimIs(a', s, d');
  }

  lemma EntryParts(k: string, b: string, c: string, v: string)
    requires Blank(b) && Blank(c) && Tight(k) && Tight(v)
    ensures Trim(if k == "" then "" else k + b) == k && Trim(if v == "" then "" else c + v) == v
  {
    hide Trim, Tight;
    assert forall s: string :: "" + s == s + "" == s;
    TrimIs("", k, if k == "" then "" else b);
    TrimIs(if v == "" then "" else c, v, "");
  }

  lemma EntryClean(a: string, k: string, b: string, c: string, v: string, d: string)
    requires Blank(a) && Blank(b) && Blank(c) && Blank(d)
    requires '\0' !in k && '=' !in k && '\0' !in v
    ensures CStr(a + k + b + "=" + c + v + d) == a + k + b + "=" + c + v + d && '=' !in k + b
  {
    hide CStr;
    BlankIsClean(a); BlankIsClean(b); BlankIsClean(c); BlankIsClean(d);
  }

  /** Writing an entry and reading it back, with any white space around the key and the value:
      it is read as that entry unless the line looks like a comment or a section. */
  lemma EntryText(a: string, k: string, b: string, c: string, v: string, d: string)
    requires Blank(a) && Blank(b) && Blank(c) && Blank(d) && Tight(k) && Tight(v)
    requires '\0' !in k && '=' !in k && '\0' !in v
    ensures Classify(a + k + b + "=" + c + v + d) == Entry(k, v) <==>
            k == "" || (k[0] != '#' && !(k[0] == '[' && v != "" && v[|v| - 1] == ']'))
  {
    hide Trim, CStr, Find, Classify, Tight, Blank;
    EntryClean(a, k, b, c, v, d);
    EntryTrims(a, k, b, c, v, d);
    EntryParts(k, b, c, v);
    ClassifyEntry(a + k + b + "=" + c + v + d, if k == "" then "" else k + b, if v == "" then "" else c + v);
  }

  // ----- What a file says -----

  /** conf_file_key */
  function KeyOf(section: Option<string>, sfx: string): string {
    if section == None || section.value == "core" || section.value == "" then sfx else section.value + "." + sfx
  }

  /** The pairs of the lines in order, and whether every line could be read. */
  function Parse(chunks: seq<string>, section: Option<string>): (seq<Pair>, bool) {
    if chunks == [] then ([], true)
    else
      match Classify(chunks[0])
      case Section(n) => Parse(chunks[1..], Some(n))
      case Skip => Parse(chunks[1..], section)
      case Bad => ([], false)
      case Entry(k, v) =>
        var (ps, ok) := Parse(chunks[1..], section);
        ([(KeyOf(section, k), v)] + ps, ok)
  }

  /** The value of the first pair with key k. */
  function First(ps: seq<Pair>, k: string): Option<string> {
    if ps == [] then None else if ps[0].0 == k then Some(ps[0].1) else First(ps[1..], k)
  }

  /** The value of the last pair with key k. */
  function Last(ps: seq<Pair>, k: string): Option<string> {
    if ps == [] then None
    else if ps[|ps| - 1].0 == k then Some(ps[|ps| - 1].1)
    else Last(ps[..|ps| - 1], k)
  }

  function Or(a: Option<string>, b: Option<string>): Option<string> { if a.Some? then a else b }

  lemma {:induction false} FirstOfTwo(ps: seq<Pair>, qs: seq<Pair>, k: string)
    ensures First(ps + qs, k) == Or(First(ps, k), First(qs, k))
  {
    if ps == [] {
      assert ps + qs == qs;
    } else {
      assert (ps + qs)[1..] == ps[1..] + qs;
      FirstOfTwo(ps[1..], qs, k);
    }
  }

  lemma {:induction false} LastOfTwo(ps: seq<Pair>, qs: seq<Pair>, k: string)
    ensures Last(ps + qs, k) == Or(Last(qs, k), Last(ps, k))
  {
    if qs == [] {
      assert ps + qs == ps;
    } else {
      assert (ps + qs)[..|ps + qs| - 1] == ps + qs[..|qs| - 1];
      LastOfTwo(ps, qs[..|qs| - 1], k);
    }
  }

  lemma {:induction false} LastIs(ps: seq<Pair>, k: string, i: nat)
    requires i < |ps| && ps[i].0 == k && forall j :: i < j < |ps| ==> ps[j].0 != k
    ensures Last(ps, k) == Some(ps[i].1)
  {
    if i < |ps| - 1 {
      LastIs(ps[..|ps| - 1], k, i);
    }
  }

  /** The section in force at line i: that of the last section line before it, or the initial
      one. */
  function SectionAt(chunks: seq<string>, section: Option<string>, i: nat): Option<string>
    requires i <= |chunks|
  {
    if i == 0 then section
    else
      match Classify(chunks[i - 1])
      case Section(n) => Some(n)
      case _ => SectionAt(chunks, section, i - 1)
  }

  lemma {:induction false} SectionShift(chunks: seq<string>, section: Option<string>, i: nat)
    requires 0 < i <= |chunks|
    ensures SectionAt(chunks, section, i) == SectionAt(chunks[1..], SectionAt(chunks, section, 1), i - 1)
  {
    hide Classify;
    if i > 1 {
      assert chunks[i - 1] == chunks[1..][i - 2];
      SectionShift(chunks, section, i - 1);
    }
  }

  /** Line i gives key k a value, under the section in force there. */
  ghost predicate Defines(chunks: seq<string>, section: Option<string>, i: nat, k: string) {
    i < |chunks| && Classify(chunks[i]).Entry? && KeyOf(SectionAt(chunks, section, i), Classify(chunks[i]).key) == k
  }

  /** Line i is the first to give key k a value, and every line before it can be read. */
  ghost predicate Decides(chunks: seq<string>, section: Option<string>, i: nat, k: string) {
    && Defines(chunks, section, i, k)
    && (forall j :: 0 <= j < i ==> !Defines(chunks, section, j, k))
    && (forall j :: 0 <= j < i ==> !Classify(chunks[j]).Bad?)
  }

  lemma DefinesShift(chunks: seq<string>, section: Option<string>, i: nat, k: string)
    requires 0 < i < |chunks|
    ensures Defines(chunks, section, i, k) == Defines(chunks[1..], SectionAt(chunks, section, 1), i - 1, k)
  {
    hide Classify, SectionAt;
    SectionShift(chunks, section, i);
  }

  lemma DecidesShift(chunks: seq<string>, section: Option<string>, i: nat, k: string)
    requires 0 < i < |chunks| && !Classify(chunks[0]).Bad? && !Defines(chunks, section, 0, k)
    ensures Decides(chunks, section, i, k) == Decides(chunks[1..], SectionAt(chunks, section, 1), i - 1, k)
  {
    hide Classify, SectionAt, Defines;
    var s1 := SectionAt(chunks, section, 1);
    forall j | 0 < j <= i ensures Defines(chunks, section, j, k) == Defines(chunks[1..], s1, j - 1, k) {
      DefinesShift(chunks, section, j, k);
    }
    assert forall j :: 0 <= j < i - 1 ==> Defines(chunks, section, j + 1, k) == Defines(chunks[1..], s1, j, k);
    assert forall j :: 0 <= j < i - 1 ==> chunks[1..][j] == chunks[j + 1];
    assert forall j :: 0 < j < i ==> chunks[j] == chunks[1..][j - 1];
  }

  lemma ParseStep(chunks: seq<string>, section: Option<string>)
    requires chunks != []
    ensures var c := Classify(chunks[0]);
            var (ps, ok) := Parse(chunks[1..], SectionAt(chunks, section, 1));
            Parse(chunks, section) == if c.Bad? then ([], false)
                                      else if c.Entry? then ([(KeyOf(section, c.key), c.val)] + ps, ok)
                                      else (ps, ok)
  {
    hide Classify;
    assert SectionAt(chunks, section, 0) == section;
  }

  lemma {:induction false} FirstDecides(chunks: seq<string>, section: Option<string>, i: nat, k: string)
    requires Decides(chunks, section, i, k)
    ensures i < |chunks| && Classify(chunks[i]).Entry?
    ensures First(Parse(chunks, section).0, k) == Some(Classify(chunks[i]).val)
  {
    hide Classify;
    var ps := Parse(chunks[1..], SectionAt(chunks, section, 1)).0;
    ParseStep(chunks, section);
    assert forall p: Pair {:trigger [p] + ps} :: ([p] + ps)[1..] == ps;
    if i > 0 {
      DecidesShift(chunks, section, i, k);
      FirstDecides(chunks[1..], SectionAt(chunks, section, 1), i - 1, k);
    }
  }

  lemma {:induction false} SomeLineDecides(chunks: seq<string>, section: Option<string>, k: string) returns (i: nat)
    requires First(Parse(chunks, section).0, k).Some?
    ensures Decides(chunks, section, i, k)
  {
    hide Classify;
    if Defines(chunks, section, 0, k) {
      return 0;
    }
    var s1 := SectionAt(chunks, section, 1);
    var ps := Parse(chunks[1..], s1).0;
    ParseStep(chunks, section);
    assert forall p: Pair {:trigger [p] + ps} :: ([p] + ps)[1..] == ps;
    i := SomeLineDecides(chunks[1..], s1, k);
    i := i + 1;
    DecidesShift(chunks, section, i, k);
  }

  /** A file gives a key the value of the first line that defines it, under the name of the
      last section before that line; lines after an unreadable one say nothing. */
  lemma FileMeans(chunks: seq<string>, k: string, v: string)
    ensures First(Parse(chunks, None).0, k) == Some(v) <==>
            exists i: nat :: Decides(chunks, None, i, k) && Classify(chunks[i]).val == v
    ensures Parse(chunks, None).1 <==> forall i :: 0 <= i < |chunks| ==> !Classify(chunks[i]).Bad?
  {
    hide Classify, Parse, Decides, First;
    AllReadable(chunks, None);
    if First(Parse(chunks, None).0, k).Some? {
      var i := SomeLineDecides(chunks, None, k);
      FirstDecides(chunks, None, i, k);
    }
    forall i: nat | Decides(chunks, None, i, k)
      ensures i < |chunks| && Classify(chunks[i]).Entry?
      ensures First(Parse(chunks, None).0, k) == Some(Classify(chunks[i]).val)
    {
      FirstDecides(chunks, None, i, k);
    }
  }

  lemma {:induction false} ParseAppend(xs: seq<string>, ys: seq<string>, section: Option<string>)
    requires Parse(xs, section).1
    ensures var rest := Parse(ys, SectionAt(xs, section, |xs|));
            Parse(xs + ys, section) == (Parse(xs, section).0 + rest.0, rest.1)
  {
    hide Classify;
    if xs == [] {
      assert xs + ys == ys && [] + Parse(ys, section).0 == Parse(ys, section).0;
    } else {
      var s1 := SectionAt(xs, section, 1);
      assert (xs + ys)[1..] == xs[1..] + ys && (xs + ys)[0] == xs[0];
      FirstSection(xs + ys, xs, section);
      ParseStep(xs, section);
      ParseStep(xs + ys, section);
      SectionShift(xs, section, |xs|);
      ParseAppend(xs[1..], ys, s1);
      var ps, qs := Parse(xs[1..], s1).0, Parse(ys, SectionAt(xs, section, |xs|)).0;
      assert forall p: Pair {:trigger [p] + ps} :: [p] + ps + qs == [p] + (ps + qs);
    }
  }

  lemma FirstSection(xs: seq<string>, ys: seq<string>, section: Option<string>)
    requires xs != [] && ys != [] && xs[0] == ys[0]
    ensures SectionAt(xs, section, 1) == SectionAt(ys, section, 1)
  {
    hide Classify;
    assert SectionAt(xs, section, 0) == SectionAt(ys, section, 0);
  }

  lemma {:induction false} SectionStays(chunks: seq<string>, section: Option<string>, i: nat, j: nat)
    requires i <= j <= |chunks| && forall m :: i <= m < j ==> !Classify(chunks[m]).Section?
    ensures SectionAt(chunks, section, j) == SectionAt(chunks, section, i)
  {
    hide Classify;
    if i < j {
      SectionStays(chunks, section, i, j - 1);
    }
  }

  /** An entry under the section in force gives its key the value, if nothing before it did. */
  lemma EntryCounts(earlier: seq<string>, line: string, after: seq<string>, k: string, v: string,
                    section: Option<string>)
    requires Parse(earlier, None).1 && SectionAt(earlier, None, |earlier|) == section && Classify(line) == Entry(k, v)
    requires First(Parse(earlier, None).0, KeyOf(section, k)) == None
    ensures First(Parse(earlier + [line] + after, None).0, KeyOf(section, k)) == Some(v)
  {
    hide Classify, KeyOf;
    var key, ps := KeyOf(section, k), Parse(earlier, None).0;
    var rest := [line] + after;
    assert earlier + [line] + after == earlier + rest && rest[0] == line && rest[1..] == after;
    ParseAppend(earlier, rest, None);
    ParseStep(rest, section);
    var qs := Parse(after, SectionAt(rest, section, 1)).0;
    assert Parse(rest, section).0 == [(key, v)] + qs;
    FirstOfTwo(ps, [(key, v)] + qs, key);
  }

  /** The line of a section and the line of an entry, white space included. */
  datatype Padded = Padded(a: string, x: string, b: string, c: string, y: string, d: string)

  ghost predicate WellPadded(p: Padded) {
    && Blank(p.a) && Blank(p.b) && Blank(p.c) && Blank(p.d) && Tight(p.x) && Tight(p.y)
    && '\0' !in p.x && '\0' !in p.y
  }

  /** The entry x=y, which looks like neither a comment nor a section. */
  ghost predicate IsEntry(p: Padded) {
    && WellPadded(p) && '=' !in p.x
    && (p.x == "" || (p.x[0] != '#' && !(p.x[0] == '[' && p.y != "" && p.y[|p.y| - 1] == ']')))
  }

  /** An entry k=v behind a line [s], with only readable lines before it and no other section
      between the two, gives the value to the key s.k; for the section core and the empty one to
      the key k; if no line before it gave that key a value. */
  lemma KeyUnderSection(before: seq<string>, s: Padded, between: seq<string>, e: Padded, after: seq<string>)
    requires WellPadded(s) && s.y == "" && IsEntry(e)
    requires var earlier := before + [s.a + "[" + s.b + s.x + s.c + "]" + s.d] + between;
             && Parse(earlier, None).1
             && First(Parse(earlier, None).0, if s.x == "core" || s.x == "" then e.x else s.x + "." + e.x) == None
    requires forall l :: l in between ==> !Classify(l).Section?
    ensures var earlier := before + [s.a + "[" + s.b + s.x + s.c + "]" + s.d] + between;
            var chunks := earlier + [e.a + e.x + e.b + "=" + e.c + e.y + e.d] + after;
            First(Parse(chunks, None).0, if s.x == "core" || s.x == "" then e.x else s.x + "." + e.x) == Some(e.y)
  {
    hide Classify, Parse, First;
    var title := s.a + "[" + s.b + s.x + s.c + "]" + s.d;
    var earlier := before + [title] + between;
    SectionText(s.a, s.b, s.x, s.c, s.d);
    EntryText(e.a, e.x, e.b, e.c, e.y, e.d);
    assert earlier[|before|] == title;
    assert forall m :: |before| < m < |earlier| ==> earlier[m] in between;
    SectionStays(earlier, None, |before| + 1, |earlier|);
    EntryCounts(earlier, e.a + e.x + e.b + "=" + e.c + e.y + e.d, after, e.x, e.y, Some(s.x));
  }

  /** Before any section an entry k=v gives the value to the key k. */
  lemma KeyWithoutSection(before: seq<string>, e: Padded, after: seq<string>)
    requires IsEntry(e) && Parse(before, None).1 && First(Parse(before, None).0, e.x) == None
    requires forall l :: l in before ==> !Classify(l).Section?
    ensures First(Parse(before + [e.a + e.x + e.b + "=" + e.c + e.y + e.d] + after, None).0, e.x) == Some(e.y)
  {
    hide Classify, Parse, First;
    EntryText(e.a, e.x, e.b, e.c, e.y, e.d);
    SectionStays(before, None, 0, |before|);
    assert SectionAt(before, None, 0) == None;
    EntryCounts(before, e.a + e.x + e.b + "=" + e.c + e.y + e.d, after, e.x, e.y, None);
  }

  lemma {:induction false} AllReadable(chunks: seq<string>, section: Option<string>)
    ensures Parse(chunks, section).1 <==> forall i :: 0 <= i < |chunks| ==> !Classify(chunks[i]).Bad?
  {
    hide Classify;
    if chunks != [] {
      var s1 := SectionAt(chunks, section, 1);
      AllReadable(chunks[1..], s1);
      ParseStep(chunks, section);
      assert forall i :: 0 <= i < |chunks[1..]| ==> chunks[1..][i] == chunks[i + 1];
      assert forall i :: 1 <= i < |chunks| ==> chunks[i] == chunks[1..][i - 1];
    }
  }

  // ----- What a command line says -----

  /** conf_argv_opts: long name, letter, whether it takes an argument. */
  const OPTIONS: seq<(string, char, bool)> :=
    [("help", 'h', false), ("config", 'c', true), ("interface", 'i', true), ("transport", 't', true),
     ("server", 's', false), ("list", 'l', false), ("verbose", 'v', false)]

  /** What successive calls of getopt_long return before -1: the letter of an option of the
      table and its argument, '?' for one that is not in the table, ':' for a missing argument. */
  datatype Opt = Given(letter: char, arg: string) | Unknown | Missing

  /** The search through the first n options, which the last match wins. */
  function OptIndex(letter: char, n: nat): Option<nat>
    requires n <= |OPTIONS|
    ensures OptIndex(letter, n).Some? ==> OptIndex(letter, n).value < n
  {
    if n == 0 then None
    else if OPTIONS[n - 1].1 == letter then Some(n - 1)
    else OptIndex(letter, n - 1)
  }

  predicate InTable(o: Opt) { o.Given? ==> OptIndex(o.letter, |OPTIONS|).Some? }

  function OptPair(o: Opt): Pair
    requires o.Given? && InTable(o)
  {
    var i := OptIndex(o.letter, |OPTIONS|).value;
    (OPTIONS[i].0, if OPTIONS[i].2 then o.arg else "1")
  }

  /** Every option is stored under its own long name, with its argument if it takes one. */
  lemma OptionNames(i: nat, arg: string)
    requires i < |OPTIONS|
    ensures InTable(Given(OPTIONS[i].1, arg))
    ensures OptPair(Given(OPTIONS[i].1, arg)) == (OPTIONS[i].0, if OPTIONS[i].2 then arg else "1")
  {
    OptIndexIs(i, |OPTIONS|);
  }

  /** The options, letter by letter. */
  lemma OptionTable(arg: string)
    ensures forall letter :: InTable(Given(letter, arg)) <==> letter in {'h', 'c', 'i', 't', 's', 'l', 'v'}
    ensures InTable(Given('h', arg)) && OptPair(Given('h', arg)) == ("help", "1")
    ensures InTable(Given('c', arg)) && OptPair(Given('c', arg)) == ("config", arg)
    ensures InTable(Given('i', arg)) && OptPair(Given('i', arg)) == ("interface", arg)
    ensures InTable(Given('t', arg)) && OptPair(Given('t', arg)) == ("transport", arg)
    ensures InTable(Given('s', arg)) && OptPair(Given('s', arg)) == ("server", "1")
    ensures InTable(Given('l', arg)) && OptPair(Given('l', arg)) == ("list", "1")
    ensures InTable(Given('v', arg)) && OptPair(Given('v', arg)) == ("verbose", "1")
  {
    hide OptPair;
    OptionNames(0, arg); OptionNames(1, arg); OptionNames(2, arg); OptionNames(3, arg);
    OptionNames(4, arg); OptionNames(5, arg); OptionNames(6, arg);
    forall letter ensures InTable(Given(letter, arg)) ==> letter in {'h', 'c', 'i', 't', 's', 'l', 'v'} {
      OptIndexFinds(letter, |OPTIONS|);
    }
  }

  lemma {:induction false} OptIndexFinds(letter: char, n: nat)
    requires n <= |OPTIONS|
    ensures OptIndex(letter, n).Some? ==> OPTIONS[OptIndex(letter, n).value].1 == letter
  {
    if n > 0 {
      OptIndexFinds(letter, n - 1);
    }
  }

  lemma {:induction false} OptIndexIs(i: nat, n: nat)
    requires i < n <= |OPTIONS|
    ensures OptIndex(OPTIONS[i].1, n) == Some(i)
  {
    if i < n - 1 {
      assert OPTIONS[n - 1].1 != OPTIONS[i].1;
      OptIndexIs(i, n - 1);
    }
  }

  /** The options up to an unknown one; a missing argument is an error. */
  function OptPairs(opts: seq<Opt>): (seq<Pair>, bool)
    requires forall o :: o in opts ==> InTable(o)
  {
    if opts == [] || opts[0].Unknown? then ([], true)
    else if opts[0].Missing? then ([], false)
    else
      var (ps, ok) := OptPairs(opts[1..]);
      ([OptPair(opts[0])] + ps, ok)
  }

  /** A word is key=value, or key for key=1. */
  function WordPair(w: string): Pair {
    match Find(w, "=")
    case None => (w, "1")
    case Some(i) => (w[..i], w[i + 1..])
  }

  /** The words up to one that starts with a dash, which is an error. */
  function WordPairs(words: seq<string>): (seq<Pair>, bool) {
    if words == [] then ([], true)
    else if words[0] != "" && words[0][0] == '-' then ([], false)
    else
      var (ps, ok) := WordPairs(words[1..]);
      ([WordPair(words[0])] + ps, ok)
  }

  /** The pairs of a command line in the order they are stored, and whether all of it could be
      read. */
  function Argv(opts: seq<Opt>, words: seq<string>): (seq<Pair>, bool)
    requires forall o :: o in opts ==> InTable(o)
  {
    var (ps, ok) := OptPairs(opts);
    if !ok then (ps, false)
    else
      var (qs, ok') := WordPairs(words);
      (ps + qs, ok')
  }

  /** One pair for each option in order, up to the first that is unknown or lacks its argument;
      only the latter is an error. */
  lemma {:induction false} OptionsInOrder(opts: seq<Opt>) returns (n: nat)
    requires forall o :: o in opts ==> InTable(o)
    ensures n <= |opts| && (forall i :: 0 <= i < n ==> opts[i].Given?) && (n < |opts| ==> !opts[n].Given?)
    ensures |OptPairs(opts).0| == n && forall i :: 0 <= i < n ==> OptPairs(opts).0[i] == OptPair(opts[i])
    ensures OptPairs(opts).1 <==> n == |opts| || opts[n].Unknown?
  {
    hide InTable, OptPair;
    if opts == [] || !opts[0].Given? {
      n := 0;
    } else {
      n := OptionsInOrder(opts[1..]);
      n := n + 1;
    }
  }

  /** One pair for each word in order, up to the first that starts with a dash, which is an error. */
  lemma {:induction false} WordsUpToDash(words: seq<string>) returns (n: nat)
    ensures n <= |words| && (forall i :: 0 <= i < n ==> words[i] == "" || words[i][0] != '-')
    ensures n < |words| ==> words[n] != "" && words[n][0] == '-'
    ensures |WordPairs(words).0| == n && forall i :: 0 <= i < n ==> WordPairs(words).0[i] == WordPair(words[i])
    ensures WordPairs(words).1 <==> n == |words|
  {
    hide WordPair;
    if words == [] || (words[0] != "" && words[0][0] == '-') {
      n := 0;
    } else {
      n := WordsUpToDash(words[1..]);
      n := n + 1;
    }
  }

  /** Writing key=value and reading it back. */
  lemma WordText(k: string, v: string)
    requires '=' !in k
    ensures WordPair(k + "=" + v) == (k, v) && WordPair(k) == (k, "1")
  {
    hide Find;
    FirstEquals(k, v);
    assert (k + "=" + v)[..|k|] == k && (k + "=" + v)[|k| + 1..] == v;
    forall i: nat ensures !At(k, i, "=") {
      if i < |k| {
        NotAt(k, i, "=");
      }
    }
  }

  /** A word wins over the options, a later word over an earlier one. */
  lemma LastWordWins(opts: seq<Opt>, words: seq<string>, i: nat, k: string, v: string)
    requires forall o :: o in opts ==> InTable(o)
    requires Argv(opts, words).1 && i < |words| && '=' !in k && words[i] == k + "=" + v
    requires forall j :: i < j < |words| ==> WordPair(words[j]).0 != k
    ensures Last(Argv(opts, words).0, k) == Some(v)
  {
    hide OptPairs, WordPairs, Last, WordPair;
    var (ps, ok) := OptPairs(opts);
    var (qs, ok') := WordPairs(words);
    WordsInOrder(words);
    WordText(k, v);
    LastIs(qs, k, i);
    LastOfTwo(ps, qs, k);
  }

  lemma {:induction false} WordsInOrder(words: seq<string>)
    requires WordPairs(words).1
    ensures |WordPairs(words).0| == |words|
    ensures forall i :: 0 <= i < |words| ==> WordPairs(words).0[i] == WordPair(words[i])
  {
    hide WordPair;
    if words != [] {
      WordsInOrder(words[1..]);
    }
  }
}
