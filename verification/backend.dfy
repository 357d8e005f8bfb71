/** The GUI's reader backend: the page of messages `read_messages` returns
    (an optional start bound, then a length limit) and `create_reader`,
    which picks the storage reader from the bag path's extension. Opening
    the bag is a parameter per storage format. */
module Backend {
  import opened Errors
  import opened Seqs
  import opened Strings
  import opened Model
  import opened Reader

  // ---------------------------------------------------------------------
  // ReaderBackend::read_messages

  /** The messages `retain` keeps: those at or after the start bound, or all
      of them without one. */
  function Retained(ms: seq<RawMessage>, startNs: Option<nat>): (r: seq<RawMessage>)
    ensures startNs.Some? ==> forall i :: 0 <= i < |r| ==> r[i].timestamp >= startNs.value
  {
    match startNs
    case None => ms
    case Some(start) => Since(ms, start)
  }

  /** `ReaderBackend::read_messages`: the topic's messages, those before the
      start bound dropped, then truncated to `limit`; a read error is passed
      on. */
  function ReadMessagesPage(read: Result<seq<RawMessage>>, startNs: Option<nat>, limit: nat): (r: Result<seq<RawMessage>>)
    ensures r.Ok? <==> read.Ok?
    ensures read.Err? ==> r.error == read.error
    ensures r.Ok? ==> |r.value| <= limit
    ensures r.Ok? && startNs.Some? ==> forall i :: 0 <= i < |r.value| ==> r.value[i].timestamp >= startNs.value
  {
    var ms :- read;
    Ok(Take(Retained(ms, startNs), limit))
  }

  /** The page is the first `min(limit, n)` of the `n` retained messages, in
      their order, and is itself an order-preserving selection of what was
      read. */
  lemma {:induction false} PageSpec(ms: seq<RawMessage>, startNs: Option<nat>, limit: nat)
    ensures var kept := Retained(ms, startNs);
      var page := ReadMessagesPage(Ok(ms), startNs, limit).value;
      |page| == (if |kept| <= limit then |kept| else limit) && page == kept[..|page|]
    ensures IsSubsequence(ReadMessagesPage(Ok(ms), startNs, limit).value, ms)
  {
    var kept := Retained(ms, startNs);
    var page := ReadMessagesPage(Ok(ms), startNs, limit).value;
    if startNs.Some? {
      FilterIsSubsequence(ms, AtOrAfter(startNs.value));
    } else {
      SubsequenceRefl(ms);
    }
    SubsequencePrefix(kept, ms, |page|);
    assert kept[..|page|] == page;
  }

  /** Without a start bound, a topic with at most `limit` messages is
      returned whole. */
  lemma {:induction false} PageUnbounded(ms: seq<RawMessage>, limit: nat)
    requires |ms| <= limit
    ensures ReadMessagesPage(Ok(ms), None, limit) == Ok(ms)
  {
  }

  // ---------------------------------------------------------------------
  // Path::file_name and Path::extension

  /** A path component `Path::components` reports as a name: not empty
      (a doubled or trailing `/`) and not `.`. */
  predicate IsNamed(c: string) {
    c != "" && c != "."
  }

  /** `Path::file_name`: the last named component, unless it is `..`. */
  function FileName(path: string): (r: Option<string>)
    ensures r.Some? ==> r.value != "" && r.value != "." && r.value != ".." && '/' !in r.value
  {
    var parts := SplitOn(path, '/');
    var named := Filter(parts, IsNamed);
    if |named| == 0 || named[|named| - 1] == ".." then None
    else
      FilterMembership(parts, IsNamed, named[|named| - 1]);
      Some(named[|named| - 1])
  }

  /** The index of the last `.` of `s`, if any. */
  function LastDot(s: string): (r: Option<nat>)
    ensures r.Some? ==> r.value < |s| && s[r.value] == '.' && '.' !in s[r.value + 1..]
    ensures r.None? ==> '.' !in s
  {
    if |s| == 0 then None
    else if s[|s| - 1] == '.' then Some(|s| - 1)
    else
      var r := LastDot(s[..|s| - 1]);
      assert s == s[..|s| - 1] + [s[|s| - 1]];
      if r.Some? then
        assert s[r.value + 1..] == s[..|s| - 1][r.value + 1..] + [s[|s| - 1]];
        r
      else r
  }

  /** `Path::extension`: what follows the last `.` of the file name, unless
      the name has no `.` or its only `.` comes first (`.bashrc`). */
  function Extension(path: string): (r: Option<string>)
    ensures r.Some? ==> '.' !in r.value && '/' !in r.value
  {
    match FileName(path)
    case None => None
    case Some(name) =>
      match LastDot(name)
      case None => None
      case Some(i) =>
        if i == 0 then None
        else
          assert forall c :: c in name[i + 1..] ==> c in name;
          Some(name[i + 1..])
  }

  /** The file name of `prefix + name`, for a directory prefix that is empty
      or ends in `/`, is `name` itself. */
  lemma {:induction false} FileNameOf(prefix: string, name: string)
    requires prefix == "" || prefix[|prefix| - 1] == '/'
    requires '/' !in name && IsNamed(name) && name != ".."
    ensures FileName(prefix + name) == Some(name)
  {
    SplitJoin([name], '/');
    var parts := SplitOn(prefix + name, '/');
    if prefix == "" {
      assert prefix + name == name;
      assert parts == [name];
    } else {
      var dir := prefix[..|prefix| - 1];
      assert prefix + name == dir + ['/'] + name;
      SplitOnAppend(dir, name, '/');
      assert parts == SplitOn(dir, '/') + [name];
      FilterAppend(SplitOn(dir, '/'), [name], IsNamed);
    }
  }

  /** A file named `stem.ext` has extension `ext`. */
  lemma {:induction false} ExtensionOf(prefix: string, stem: string, ext: string)
    requires prefix == "" || prefix[|prefix| - 1] == '/'
    requires |stem| > 0 && stem != "." && '/' !in stem && '/' !in ext && '.' !in ext
    ensures Extension(prefix + stem + "." + ext) == Some(ext)
  {
    var name := stem + "." + ext;
    assert '/' !in name by {
      assert forall c :: c in name ==> c in stem || c == '.' || c in ext;
    }
    assert name[|stem|] == '.' && stem == name[..|stem|];
    assert |name| == 2 ==> stem == name[..1];
    assert prefix + stem + "." + ext == prefix + name;
    FileNameOf(prefix, name);
    LastDotOf(stem, ext);
    assert name[|stem| + 1..] == ext;
  }

  /** The last `.` of `stem.ext`, when `ext` has none, is the one before it. */
  lemma {:induction false} LastDotOf(stem: string, ext: string)
    requires '.' !in ext
    ensures LastDot(stem + "." + ext) == Some(|stem|)
  {
    var name := stem + "." + ext;
    assert name[|stem|] == '.';
    assert forall i :: |stem| < i < |name| ==> name[i] == ext[i - |stem| - 1];
  }

  /** A name with no `.` has no extension. */
  lemma {:induction false} NoExtension(prefix: string, name: string)
    requires prefix == "" || prefix[|prefix| - 1] == '/'
    requires '/' !in name && '.' !in name && name != ""
    ensures Extension(prefix + name) == None
  {
    FileNameOf(prefix, name);
  }

  // ---------------------------------------------------------------------
  // create_reader

  /** `create_reader`: `.db3` bags go to the SQLite reader, `.mcap` bags to
      the MCAP reader, anything else is an unsupported format. Opening is
      the given reader's own business, and its error is the result. */
  function CreateReader<R>(path: string, openDb3: string -> Result<R>, openMcap: string -> Result<R>): (r: Result<R>)
    ensures Extension(path) == Some("db3") ==> r == openDb3(path)
    ensures Extension(path) == Some("mcap") ==> r == openMcap(path)
    ensures Extension(path) != Some("db3") && Extension(path) != Some("mcap") ==> r == Err(UnsupportedFormat(path))
  {
    match Extension(path)
    case Some(ext) =>
      if ext == "db3" then openDb3(path)
      else if ext == "mcap" then openMcap(path)
      else Err(UnsupportedFormat(path))
    case None => Err(UnsupportedFormat(path))
  }

  /** A `stem.db3` path opens with the SQLite reader and a `stem.mcap` path
      with the MCAP reader. */
  lemma {:induction false} CreateReaderByExtension<R>(prefix: string, stem: string, openDb3: string -> Result<R>, openMcap: string -> Result<R>)
    requires prefix == "" || prefix[|prefix| - 1] == '/'
    requires |stem| > 0 && stem != "." && '/' !in stem
    ensures CreateReader(prefix + stem + ".db3", openDb3, openMcap) == openDb3(prefix + stem + ".db3")
    ensures CreateReader(prefix + stem + ".mcap", openDb3, openMcap) == openMcap(prefix + stem + ".mcap")
  {
    assert prefix + stem + ".db3" == prefix + stem + "." + "db3";
    assert prefix + stem + ".mcap" == prefix + stem + "." + "mcap";
    ExtensionOf(prefix, stem, "db3");
    ExtensionOf(prefix, stem, "mcap");
  }

  /** A path whose file name has no `.` is refused. */
  lemma {:induction false} CreateReaderNoExtension<R>(prefix: string, name: string, openDb3: string -> Result<R>, openMcap: string -> Result<R>)
    requires prefix == "" || prefix[|prefix| - 1] == '/'
    requires '/' !in name && '.' !in name && name != ""
    ensures CreateReader(prefix + name, openDb3, openMcap) == Err(UnsupportedFormat(prefix + name))
  {
    NoExtension(prefix, name);
  }
}
