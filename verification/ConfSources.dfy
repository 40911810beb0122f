/** The readers of src/conf_file.c and src/conf_argv.c, which store what ConfSyntax says into a
    configuration, and the order in which src/pppoat.c calls them. */
module ConfSources {
  import opened Wrappers
  import opened CText
  import opened ConfSyntax
  import ConfStore
  import Conf

  const EIO: int := -5
  const EINVAL: int := -22

  // ----- The line buffer -----

  /** The string at index s of a buffer. */
  function Text(buf: array<char>, s: nat): string
    requires s <= buf.Length
    reads buf
  {
    CStr(buf[s..])
  }

  lemma CStrIs(x: string, t: string)
    requires t <= x && '\0' !in t && |t| < |x| && x[|t|] == '\0'
    ensures CStr(x) == t
  {
    if t != "" {
      CStrIs(x[1..], t[1..]);
    }
  }

  lemma TextIs(buf: array<char>, s: nat, t: string)
    requires s + |t| < buf.Length && buf[s + |t|] == '\0' && '\0' !in t
    requires forall j :: 0 <= j < |t| ==> buf[s + j] == t[j]
    ensures Text(buf, s) == t
  {
    assert buf[s..][..|t|] == t;
    CStrIs(buf[s..], t);
  }

  lemma TextAt(buf: array<char>, s: nat)
    requires s <= buf.Length && s + |Text(buf, s)| < buf.Length
    ensures forall j :: 0 <= j < |Text(buf, s)| ==> buf[s + j] == Text(buf, s)[j]
    ensures buf[s + |Text(buf, s)|] == '\0' && '\0' !in Text(buf, s)
  {
  }

  /** The first loop of conf_file_trim. */
  method SkipFront(buf: array<char>, s0: nat, len0: nat) returns (s: nat, len: nat)
    requires s0 + len0 <= buf.Length
    ensures s0 <= s && s + len == s0 + len0 && buf[s..s + len] == SkipWhite(buf[s0..s0 + len0])
  {
    s, len := s0, len0;
    while len > 0 && White(buf[s])
      invariant s0 <= s && s + len == s0 + len0
      invariant SkipWhite(buf[s0..s0 + len0]) == SkipWhite(buf[s..s + len])
    {
      assert buf[s..s + len][1..] == buf[s + 1..s + len];
      s, len := s + 1, len - 1;
    }
  }

  /** The second loop of conf_file_trim. */
  method CutBack(buf: array<char>, s: nat, len0: nat) returns (len: nat)
    requires s + len0 < buf.Length && buf[s + len0] == '\0'
    modifies buf
    ensures len <= len0 && buf[s..s + len] == DropWhite(old(buf[s..s + len0])) && buf[s + len] == '\0'
    ensures forall j :: 0 <= j < buf.Length && !(s <= j < s + len0) ==> buf[j] == old(buf[j])
  {
    ghost var text := buf[s..s + len0];
    len := len0;
    assert text[..len] == text;
    while len > 0 && White(buf[s + len - 1])
      invariant len <= len0 && buf[s + len] == '\0' && DropWhite(text) == DropWhite(text[..len])
      invariant forall j :: 0 <= j < buf.Length && !(s + len <= j < s + len0) ==> buf[j] == old(buf[j])
    {
      assert text[..len][..len - 1] == text[..len - 1];
      len := len - 1;
      buf[s + len] := '\0';
    }
    assert buf[s..s + len] == text[..len];
  }

  /** conf_file_trim: moves the start past white space and writes the new end into the buffer;
      the buffer outside the string stays as it is. */
  method TrimInPlace(buf: array<char>, s0: nat) returns (s: nat)
    requires s0 <= buf.Length && s0 + |Text(buf, s0)| < buf.Length
    modifies buf
    ensures s0 <= s <= buf.Length && s + |Text(buf, s)| <= s0 + |old(Text(buf, s0))|
    ensures Text(buf, s) == Trim(old(Text(buf, s0)))
    ensures forall j :: 0 <= j < buf.Length && !(s0 <= j < s0 + |old(Text(buf, s0))|) ==> buf[j] == old(buf[j])
  {
    hide CStr, Text, SkipWhite, DropWhite;
    ghost var text := Text(buf, s0);
    var len := |Text(buf, s0)|;
    TextAt(buf, s0);
    assert buf[s0..s0 + len] == text;
    s, len := SkipFront(buf, s0, len);
    assert forall c :: c in buf[s..s + len] ==> c in text by {
      assert forall j :: s <= j < s + len ==> buf[j] == text[j - s0];
    }
    len := CutBack(buf, s, len);
    DropWhiteKeeps(SkipWhite(text));
    TextIs(buf, s, buf[s..s + len]);
  }

  lemma DropWhiteKeeps(s: string)
    ensures forall c :: c in DropWhite(s) ==> c in s
  {}

  /** fgets on what is left of a file. */
  method Fgets(buf: array<char>, data: string, fails: bool) returns (n: nat)
    requires buf.Length == LINE_MAX
    modifies buf
    ensures n == (if Cut(data, LineLen(data, LINE_MAX - 1), fails) then 0 else LineLen(data, LINE_MAX - 1))
    ensures n > 0 ==> Text(buf, 0) == CStr(data[..n]) && |Text(buf, 0)| < LINE_MAX
  {
    n := 0;
    while n < |data| && n < LINE_MAX - 1 && (n == 0 || data[n - 1] != '\n')
      invariant n <= |data| && n < LINE_MAX && n <= LineLen(data, LINE_MAX - 1)
      invariant n > 0 && data[n - 1] == '\n' ==> n == LineLen(data, LINE_MAX - 1)
      invariant forall j :: 0 <= j < n ==> buf[j] == data[j]
    {
      LineGoesOn(data, LINE_MAX - 1, n);
      buf[n] := data[n];
      n := n + 1;
    }
    if n == |data| && fails && n < LINE_MAX - 1 && (n == 0 || data[n - 1] != '\n') {
      return 0;
    }
    buf[n] := '\0';
    assert buf[0..][..n] == data[..n];
    CStrCut(data[..n], buf[0..]);
  }

  lemma LineGoesOn(data: string, room: nat, n: nat)
    requires n <= LineLen(data, room) && n < |data| && n < room && (n == 0 || data[n - 1] != '\n')
    ensures n + 1 <= LineLen(data, room)
    ensures data[n] == '\n' ==> n + 1 == LineLen(data, room)
  {
    var l := LineLen(data, room);
    assert forall i :: 0 <= i < l - 1 ==> data[i] != '\n';
  }

  /** What a string function sees of a text that a NUL follows. */
  lemma CStrCut(t: string, x: string)
    requires t <= x && |t| < |x| && x[|t|] == '\0'
    ensures CStr(x) == CStr(t) && |CStr(x)| <= |t|
  {
    if t != "" {
      CStrCut(t[1..], x[1..]);
    }
  }

  // ----- A configuration file -----

  /** A trimmed line of the form [section]. */
  method ScanSection(buf: array<char>, s0: nat) returns (name: string)
    requires s0 <= buf.Length && s0 + |Text(buf, s0)| < buf.Length && |Text(buf, s0)| >= 2
    modifies buf
    ensures var text := old(Text(buf, s0)); name == Trim(text[1..|text| - 1])
  {
    hide Text, Trim;
    ghost var text := Text(buf, s0);
    var len := |Text(buf, s0)|;
    TextAt(buf, s0);
    buf[s0 + len - 1] := '\0';
    TextIs(buf, s0 + 1, text[1..len - 1]);
    var s := TrimInPlace(buf, s0 + 1);
    name := Text(buf, s);
  }

  /** A trimmed line cut at the '=' at i. */
  method ScanEntry(buf: array<char>, s: nat, i: nat) returns (key: string, val: string)
    requires s <= buf.Length && s + |Text(buf, s)| < buf.Length && i < |Text(buf, s)|
    modifies buf
    ensures var text := old(Text(buf, s)); key == Trim(text[..i]) && val == Trim(text[i + 1..])
  {
    hide Text, Trim;
    ghost var text := Text(buf, s);
    ghost var front, back := text[..i], text[i + 1..];
    TextAt(buf, s);
    buf[s + i] := '\0';
    TextIs(buf, s, front);
    var k := TrimInPlace(buf, s);
    key := Text(buf, k);
    TextIs(buf, s + i + 1, back);
    var v := TrimInPlace(buf, s + i + 1);
    val := Text(buf, v);
  }

  /** The branches of the loop of pppoat_conf_read_file on the line in the buffer. */
  method ScanLine(buf: array<char>) returns (line: Line)
    requires |Text(buf, 0)| < buf.Length
    modifies buf
    ensures line == ClassifyTrimmed(Trim(old(Text(buf, 0))))
  {
    hide Text, Trim, Find;
    var s := TrimInPlace(buf, 0);
    ghost var text := Text(buf, s);
    var len := |Text(buf, s)|;
    TextAt(buf, s);
    if buf[s] == '[' && buf[s + len - 1] == ']' {
      var name := ScanSection(buf, s);
      line := Section(name);
    } else if buf[s] == '\0' || buf[s] == '#' {
      line := Skip;
    } else {
      var eq := Find(Text(buf, s), "=");
      if eq == None {
        return Bad;
      }
      EqualsInside(text, eq.value);
      var key, val := ScanEntry(buf, s, eq.value);
      line := Entry(key, val);
    }
  }

  lemma EqualsInside(s: string, i: nat)
    requires At(s, i, "=")
    ensures i < |s|
  {}

  /** conf_file_store: a key that has a value keeps it. */
  method FileStore(conf: Conf.Conf, key: string, val: string)
    requires conf.Valid()
    modifies conf, conf.s.key.Keys
    ensures conf.Valid() && fresh(conf.s.key.Keys - old(conf.s.key.Keys))
    ensures forall k :: conf.Meaning(k) ==
                        if k == key && old(conf.Meaning(k)) == None then Some(val) else old(conf.Meaning(k))
    ensures old(conf.Meaning(key)).Some? ==> conf.s == old(conf.s)
  {
    hide ConfStore.Inv, ConfStore.Apply, ConfStore.Value;
    ghost var before := conf.s;
    var r := conf.Lookup(key);
    if r != null {
      Conf.LookupThenPut(before, key);
      conf.RecordPut(r);
    } else {
      ghost var n := conf.Store(key, val);
    }
  }

  /** A file that cannot be opened, or one that can be read, to its end or to an error. */
  datatype File = Absent(errno: int) | File(data: string, fails: bool)

  /** The pairs of a file and whether every line could be read. */
  function FilePairs(file: File): (seq<Pair>, bool) {
    if file.Absent? then ([], true) else Parse(Chunks(file.data, file.fails), None)
  }

  /** Some pairs, then the outcome of what follows them. */
  function After(done: seq<Pair>, r: (seq<Pair>, bool)): (seq<Pair>, bool) { (done + r.0, r.1) }

  lemma AfterNothing(r: (seq<Pair>, bool))
    ensures After([], r) == r
  {
    assert [] + r.0 == r.0;
  }

  lemma AfterLast(done: seq<Pair>)
    ensures forall ok :: After(done, ([], ok)) == (done, ok)
  {
    assert done + [] == done;
  }

  lemma AfterMore(done: seq<Pair>, p: Pair, r: (seq<Pair>, bool))
    ensures After(done, After([p], r)) == After(done + [p], r)
  {
    assert done + ([p] + r.0) == (done + [p]) + r.0;
  }

  lemma FirstOfMore(done: seq<Pair>, p: Pair)
    ensures forall k :: First(done + [p], k) == Or(First(done, k), if k == p.0 then Some(p.1) else None)
  {
    forall k ensures First(done + [p], k) == Or(First(done, k), if k == p.0 then Some(p.1) else None) {
      FirstOfTwo(done, [p], k);
    }
  }

  lemma NextChunk(data: string, fails: bool, section: Option<string>)
    ensures var n := LineLen(data, LINE_MAX - 1);
            if n == 0 || Cut(data, n, fails) then Parse(Chunks(data, fails), section) == ([], true)
            else Parse(Chunks(data, fails), section) ==
                 match Classify(data[..n])
                 case Section(name) => Parse(Chunks(data[n..], fails), Some(name))
                 case Skip => Parse(Chunks(data[n..], fails), section)
                 case Bad => ([], false)
                 case Entry(k, v) => After([(KeyOf(section, k), v)], Parse(Chunks(data[n..], fails), section))
  {
    hide LineLen, Classify;
  }

  /** conf_file_key */
  method FileKey(section: Option<string>, sfx: string) returns (key: string)
    ensures key == KeyOf(section, sfx)
    ensures key == if section in {None, Some("core"), Some("")} then sfx else section.value + "." + sfx
  {
    var prefix := if section == None || section.value == "core" then "" else section.value;
    key := "";
    if prefix != "" {
      key := prefix;
      key := key + ".";
    }
    key := key + sfx;
  }

  /** The change from one state of a configuration to another when pairs are added by
      conf_file_store. */
  ghost predicate Adds(before: ConfStore.State<Conf.Record>, after: ConfStore.State<Conf.Record>, ps: seq<Pair>) {
    && ConfStore.Known(before) && ConfStore.Known(after)
    && (forall k :: ConfStore.Meant(after, k) == Or(ConfStore.Meant(before, k), First(ps, k)))
    && ((forall k :: First(ps, k).Some? ==> ConfStore.Meant(before, k).Some?) ==> after == before)
  }

  lemma AddsNothing(conf: Conf.Conf)
    requires conf.Valid()
    ensures Adds(conf.s, conf.s, [])
  {
    hide ConfStore.UniqueKeys, ConfStore.Counted, ConfStore.Meant;
  }

  lemma AddsMeans(conf: Conf.Conf, before: ConfStore.State<Conf.Record>, ps: seq<Pair>)
    requires conf.Valid() && Adds(before, conf.s, ps)
    ensures forall k :: conf.Meaning(k) ==
                        if ConfStore.Meant(before, k).Some? then ConfStore.Meant(before, k) else First(ps, k)
  {
    hide ConfStore.Inv, ConfStore.Meant, First;
    forall k
      ensures conf.Meaning(k) ==
              if ConfStore.Meant(before, k).Some? then ConfStore.Meant(before, k) else First(ps, k)
    {
      assert conf.Meaning(k) == ConfStore.Meant(conf.s, k);
    }
  }

  lemma AddsMore(before: ConfStore.State<Conf.Record>, mid: ConfStore.State<Conf.Record>,
                 after: ConfStore.State<Conf.Record>, ps: seq<Pair>, key: string, val: string)
    requires Adds(before, mid, ps) && ConfStore.Known(after)
    requires forall k :: ConfStore.Meant(after, k) == Or(ConfStore.Meant(mid, k), if k == key then Some(val) else None)
    requires ConfStore.Meant(mid, key).Some? ==> after == mid
    ensures Adds(before, after, ps + [(key, val)])
  {
    hide ConfStore.Meant, First;
    var more := ps + [(key, val)];
    FirstOfMore(ps, (key, val));
    if forall k :: First(more, k).Some? ==> ConfStore.Meant(before, k).Some? {
      forall k | First(ps, k).Some? ensures ConfStore.Meant(before, k).Some? {
        assert First(more, k).Some?;
      }
      assert First(more, key).Some?;
      assert after == before;
    }
  }

  /** An entry line. */
  method AddEntry(conf: Conf.Conf, key: string, val: string,
                  ghost before: ConfStore.State<Conf.Record>, ghost done: seq<Pair>)
    requires conf.Valid() && Adds(before, conf.s, done)
    modifies conf, conf.s.key.Keys
    ensures conf.Valid() && fresh(conf.s.key.Keys - old(conf.s.key.Keys))
    ensures Adds(before, conf.s, done + [(key, val)])
  {
    hide ConfStore.UniqueKeys, ConfStore.Counted, ConfStore.Value, First, Adds;
    ghost var mid := conf.s;
    FileStore(conf, key, val);
    forall k ensures ConfStore.Meant(conf.s, k) == Or(ConfStore.Meant(mid, k), if k == key then Some(val) else None) {
      assert conf.Meaning(k) == ConfStore.Meant(conf.s, k);
    }
    AddsMore(before, mid, conf.s, done, key, val);
  }

  /** pppoat_conf_read_file: only keys without a value get one, each from its first line. Lines
      before an unreadable one stay stored. A file whose keys all have values changes nothing,
      so reading a file a second time does not. */
  method ReadFile(conf: Conf.Conf, file: File) returns (rc: int)
    requires conf.Valid()
    modifies conf, conf.s.key.Keys
    ensures conf.Valid() && fresh(conf.s.key.Keys - old(conf.s.key.Keys))
    ensures Adds(old(conf.s), conf.s, FilePairs(file).0)
    ensures forall k :: conf.Meaning(k) ==
                        if old(conf.Meaning(k)).Some? then old(conf.Meaning(k)) else First(FilePairs(file).0, k)
    ensures rc == if file.Absent? then -file.errno else if !FilePairs(file).1 then -22 else if file.fails then -5 else 0
  {
    hide Conf.Conf.Valid, Chunks, Parse, ClassifyTrimmed, Trim, CStr, LineLen, Cut, After, KeyOf, Adds;
    AddsNothing(conf);
    if file.Absent? {
      AddsMeans(conf, old(conf.s), []);
      return -file.errno;
    }
    var line := new char[LINE_MAX];
    var rest, section := file.data, None;
    ghost var done: seq<Pair> := [];
    ghost var all := FilePairs(file);
    AfterNothing(all);
    rc := 0;
    while rc == 0
      invariant conf.Valid() && fresh(line) && fresh(conf.s.key.Keys - old(conf.s.key.Keys))
      invariant rc == 0 ==> all == After(done, Parse(Chunks(rest, file.fails), section))
      invariant rc != 0 ==> rc == EINVAL && all == (done, false)
      invariant Adds(old(conf.s), conf.s, done)
      decreases |rest|
    {
      NextChunk(rest, file.fails, section);
      AfterLast(done);
      var n := Fgets(line, rest, file.fails);
      if n == 0 {
        if file.fails {
          rc := EIO;
        }
        break;
      }
      var what := ScanLine(line);
      rest := rest[n..];
      match what {
        case Section(name) => section := Some(name);
        case Skip =>
        case Bad => rc := EINVAL;
        case Entry(k, v) =>
          var key := FileKey(section, k);
          AddEntry(conf, key, v, old(conf.s), done);
          AfterMore(done, (key, v), Parse(Chunks(rest, file.fails), section));
          done := done + [(key, v)];
      }
    }
    AddsMeans(conf, old(conf.s), done);
  }

  /** Reading a file that has been read changes nothing, not even the generation. */
  lemma ReadAgain(s0: ConfStore.State<Conf.Record>, s1: ConfStore.State<Conf.Record>, s2: ConfStore.State<Conf.Record>,
                  file: File)
    requires Adds(s0, s1, FilePairs(file).0) && Adds(s1, s2, FilePairs(file).0)
    ensures s2 == s1
  {
    hide First, FilePairs, ConfStore.Meant;
    var ps := FilePairs(file).0;
    forall k | First(ps, k).Some? ensures ConfStore.Meant(s1, k).Some? {
      assert ConfStore.Meant(s1, k) == Or(ConfStore.Meant(s0, k), First(ps, k));
    }
  }

  // ----- The command line -----

  /** The change when pairs are stored in order. */
  ghost predicate Stores(before: ConfStore.State<Conf.Record>, after: ConfStore.State<Conf.Record>, ps: seq<Pair>) {
    && ConfStore.Known(before) && ConfStore.Known(after)
    && (forall k :: ConfStore.Meant(after, k) == Or(Last(ps, k), ConfStore.Meant(before, k)))
    && after.gen == before.gen + |ps|
  }

  lemma StoresNothing(conf: Conf.Conf)
    requires conf.Valid()
    ensures Stores(conf.s, conf.s, [])
  {
    hide ConfStore.UniqueKeys, ConfStore.Counted, ConfStore.Meant;
  }

  lemma StoresMeans(conf: Conf.Conf, before: ConfStore.State<Conf.Record>, ps: seq<Pair>)
    requires conf.Valid() && Stores(before, conf.s, ps)
    ensures forall k :: conf.Meaning(k) == if Last(ps, k).Some? then Last(ps, k) else ConfStore.Meant(before, k)
  {
    hide ConfStore.Inv, ConfStore.Meant, Last;
    forall k ensures conf.Meaning(k) == if Last(ps, k).Some? then Last(ps, k) else ConfStore.Meant(before, k) {
      assert conf.Meaning(k) == ConfStore.Meant(conf.s, k);
    }
  }

  lemma StoresMore(before: ConfStore.State<Conf.Record>, mid: ConfStore.State<Conf.Record>,
                   after: ConfStore.State<Conf.Record>, ps: seq<Pair>, key: string, val: string)
    requires Stores(before, mid, ps) && ConfStore.Known(after) && after.gen == mid.gen + 1
    requires forall k :: ConfStore.Meant(after, k) == if k == key then Some(val) else ConfStore.Meant(mid, k)
    ensures Stores(before, after, ps + [(key, val)])
  {
    hide ConfStore.Meant;
    assert (ps + [(key, val)])[..|ps|] == ps;
  }

  /** conf_argv_store_single */
  method StoreSingle(conf: Conf.Conf, key: string, val: string,
                     ghost before: ConfStore.State<Conf.Record>, ghost done: seq<Pair>)
    requires conf.Valid() && Stores(before, conf.s, done)
    modifies conf, conf.s.key.Keys
    ensures conf.Valid() && fresh(conf.s.key.Keys - old(conf.s.key.Keys))
    ensures Stores(before, conf.s, done + [(key, val)])
  {
    hide ConfStore.UniqueKeys, ConfStore.Counted, ConfStore.Value, ConfStore.Apply, Stores;
    ghost var mid := conf.s;
    ghost var n := conf.Store(key, val);
    forall k ensures ConfStore.Meant(conf.s, k) == if k == key then Some(val) else ConfStore.Meant(mid, k) {
      assert conf.Meaning(k) == ConfStore.Meant(conf.s, k);
    }
    StoresMore(before, mid, conf.s, done, key, val);
  }

  /** The search through conf_argv_opts. */
  method FindOption(letter: char) returns (index: nat)
    requires InTable(Given(letter, ""))
    ensures OptIndex(letter, |OPTIONS|) == Some(index)
  {
    ghost var found: Option<nat> := None;
    index := 0;
    for i := 0 to |OPTIONS|
      invariant found == OptIndex(letter, i) && (found.Some? ==> found.value == index)
    {
      if OPTIONS[i].1 == letter {
        index, found := i, Some(i);
      }
    }
  }

  /** pppoat_conf_read_argv, for what getopt_long finds and the words it leaves. */
  method ReadArgv(conf: Conf.Conf, opts: seq<Opt>, words: seq<string>) returns (rc: int)
    requires conf.Valid() && forall o :: o in opts ==> InTable(o)
    modifies conf, conf.s.key.Keys
    ensures conf.Valid() && fresh(conf.s.key.Keys - old(conf.s.key.Keys))
    ensures Stores(old(conf.s), conf.s, Argv(opts, words).0)
    ensures forall k :: conf.Meaning(k) ==
                        var last := Last(Argv(opts, words).0, k); if last.Some? then last else old(conf.Meaning(k))
    ensures rc == if Argv(opts, words).1 then 0 else -22
  {
    hide Conf.Conf.Valid, Stores, InTable, OptPair, Find, After;
    ghost var done: seq<Pair> := [];
    StoresNothing(conf);
    AfterNothing(OptPairs(opts));
    var i := 0;
    while i < |opts|
      invariant i <= |opts| && conf.Valid() && fresh(conf.s.key.Keys - old(conf.s.key.Keys))
      invariant Stores(old(conf.s), conf.s, done) && OptPairs(opts) == After(done, OptPairs(opts[i..]))
    {
      AfterLast(done);
      if opts[i].Unknown? {
        break;
      }
      if opts[i].Missing? {
        StoresMeans(conf, old(conf.s), done);
        return EINVAL;
      }
      TableLetter(opts[i]);
      var index := FindOption(opts[i].letter);
      var key := OPTIONS[index].0;
      var val := if OPTIONS[index].2 then opts[i].arg else "1";
      StoreSingle(conf, key, val, old(conf.s), done);
      NextOpt(opts[i..], index);
      assert opts[i..][1..] == opts[i + 1..];
      AfterMore(done, (key, val), OptPairs(opts[i + 1..]));
      done := done + [(key, val)];
      i := i + 1;
    }
    AfterLast(done);
    rc := ReadWords(conf, words, old(conf.s), done);
    StoresMeans(conf, old(conf.s), done + WordPairs(words).0);
  }

  lemma TableLetter(o: Opt)
    requires o.Given? && InTable(o)
    ensures InTable(Given(o.letter, ""))
  {}

  lemma NextOpt(opts: seq<Opt>, index: nat)
    requires (forall o :: o in opts ==> InTable(o)) && opts != [] && opts[0].Given?
    requires OptIndex(opts[0].letter, |OPTIONS|) == Some(index)
    ensures OptPairs(opts) == After([(OPTIONS[index].0, if OPTIONS[index].2 then opts[0].arg else "1")],
            OptPairs(opts[1..]))
  {}

  /** The loop over the words of pppoat_conf_read_argv. */
  method ReadWords(conf: Conf.Conf, words: seq<string>, ghost before: ConfStore.State<Conf.Record>,
                   ghost opts: seq<Pair>)
    returns (rc: int)
    requires conf.Valid() && Stores(before, conf.s, opts)
    modifies conf, conf.s.key.Keys
    ensures conf.Valid() && fresh(conf.s.key.Keys - old(conf.s.key.Keys))
    ensures Stores(before, conf.s, opts + WordPairs(words).0)
    ensures rc == if WordPairs(words).1 then 0 else -22
  {
    hide Conf.Conf.Valid, Stores, Find, After, WordPair;
    ghost var done: seq<Pair> := [];
    AfterNothing(WordPairs(words));
    assert opts + done == opts;
    var i := 0;
    while i < |words|
      invariant i <= |words| && conf.Valid() && fresh(conf.s.key.Keys - old(conf.s.key.Keys))
      invariant Stores(before, conf.s, opts + done) && WordPairs(words) == After(done, WordPairs(words[i..]))
    {
      AfterLast(done);
      if words[i] != "" && words[i][0] == '-' {
        return EINVAL;
      }
      var key, val := CutWord(words[i]);
      StoreSingle(conf, key, val, before, opts + done);
      NextWord(words[i..]);
      assert words[i..][1..] == words[i + 1..];
      AfterMore(done, (key, val), WordPairs(words[i + 1..]));
      assert opts + done + [(key, val)] == opts + (done + [(key, val)]);
      done := done + [(key, val)];
      i := i + 1;
    }
    AfterLast(done);
    rc := 0;
  }

  lemma NextWord(words: seq<string>)
    requires words != [] && !(words[0] != "" && words[0][0] == '-')
    ensures WordPairs(words) == After([WordPair(words[0])], WordPairs(words[1..]))
  {
    hide WordPair;
  }

  /** The cut at the first '=' of a word. */
  method CutWord(word: string) returns (key: string, val: string)
    ensures (key, val) == WordPair(word)
  {
    var eq := Find(word, "=");
    key, val := word, "1";
    if eq.Some? {
      key, val := word[..eq.value], word[eq.value + 1..];
    }
  }

  // ----- Both -----

  /** Whether a file can be opened and read, line by line, to its end. */
  ghost predicate Readable(file: File) { file.File? && FilePairs(file).1 && !file.fails }

  /** The start of src/pppoat.c's main, up to a failure or the end of the sources. */
  method ReadSources(conf: Conf.Conf, opts: seq<Opt>, words: seq<string>, files: string -> File) returns (rc: int)
    requires conf.Valid() && conf.store == [] && forall o :: o in opts ==> InTable(o)
    requires forall name :: files(name).Absent? ==> files(name).errno > 0
    modifies conf, conf.s.key.Keys
    ensures conf.Valid()
    ensures Argv(opts, words).1 ==>
              forall k :: conf.Meaning(k) ==
                          var ps := Argv(opts, words).0;
                          if Last(ps, k).Some? then Last(ps, k)
                          else if Last(ps, "config").Some? then First(FilePairs(files(Last(ps, "config").value)).0, k)
                          else None
    ensures var (ps, ok) := Argv(opts, words);
            rc == 0 <==> ok && (Last(ps, "config").Some? ==> Readable(files(Last(ps, "config").value)))
  {
    hide ConfStore.Inv, ConfStore.Value, Argv, Last, First, FilePairs;
    ghost var start := conf.s;
    EmptyStart(start);
    rc := ReadArgv(conf, opts, words);
    ghost var mid := conf.s;
    if rc != 0 {
      return;
    }
    var file;
    rc, file := conf.FindStringAlloc("config");
    assert conf.Meaning("config") == ConfStore.Meant(mid, "config");
    if rc == 0 {
      rc := ReadFile(conf, files(file));
    } else {
      rc := 0;
    }
    assert forall k :: ConfStore.Meant(start, k) == None;
  }

  lemma EmptyStart(s: ConfStore.State<Conf.Record>)
    requires ConfStore.Known(s) && s.store == []
    ensures forall k :: ConfStore.Meant(s, k) == None
  {}
}
