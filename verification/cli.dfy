/** The command-line front end's own logic: the namespace a topic is listed
    under by `info`, the order `info` lists topics in, the messages `show`
    lists, and the file name `dump` writes to. Printing and file creation
    are left to the caller. */
module Cli {
  import opened Errors
  import opened Strings
  import opened Seqs
  import opened Model

  // ---------------------------------------------------------------------
  // The namespace key

  /** The first non-empty piece. */
  function FirstNonEmpty(pieces: seq<string>): (r: Option<string>)
    ensures r.Some? ==> r.value != [] && r.value in pieces
    ensures r.None? <==> forall i :: 0 <= i < |pieces| ==> pieces[i] == []
  {
    if |pieces| == 0 then None
    else if pieces[0] != [] then Some(pieces[0])
    else
      var r := FirstNonEmpty(pieces[1..]);
      assert forall i :: 1 <= i < |pieces| ==> pieces[i] == pieces[1..][i - 1];
      r
  }

  /** The group a topic is listed under: `/` and the first non-empty
      `/`-separated segment of its name, or `/` alone when there is none. */
  function NamespaceKey(name: string): (key: string)
    ensures |key| >= 1 && key[0] == '/' && '/' !in key[1..]
  {
    match FirstNonEmpty(SplitOn(name, '/'))
    case Some(segment) => "/" + segment
    case None => "/"
  }

  /** A name is filed under `/` alone exactly when it has no character other
      than `/` (the empty name included). */
  lemma {:induction false} NamespaceKeyRoot(name: string)
    ensures NamespaceKey(name) == "/" <==> forall i :: 0 <= i < |name| ==> name[i] == '/'
    decreases |name|
  {
    if |name| > 0 {
      var rest := SplitOn(name[1..], '/');
      if name[0] == '/' {
        assert SplitOn(name, '/') == [""] + rest;
        assert ([""] + rest)[1..] == rest;
        NamespaceKeyRoot(name[1..]);
        assert forall i :: 1 <= i < |name| ==> name[i] == name[1..][i - 1];
      } else {
        assert SplitOn(name, '/')[0] == [name[0]] + rest[0];
      }
    }
  }

  /** Leading slashes do not change the key. */
  lemma {:induction false} LeadingSlash(name: string)
    ensures NamespaceKey("/" + name) == NamespaceKey(name)
  {
    var s := "/" + name;
    assert s[1..] == name;
    var rest := SplitOn(name, '/');
    assert SplitOn(s, '/') == [""] + rest;
    assert ([""] + rest)[1..] == rest;
  }

  /** The key of a name starting with a segment is that segment. */
  lemma {:induction false} SegmentFirst(segment: string, rest: string)
    requires segment != [] && '/' !in segment
    requires rest == [] || rest[0] == '/'
    ensures NamespaceKey(segment + rest) == "/" + segment
  {
    SplitJoin([segment], '/');
    if rest == [] {
      assert segment + rest == segment;
    } else {
      var tail := rest[1..];
      assert segment + rest == segment + ['/'] + tail;
      SplitOnAppend(segment, tail, '/');
      assert SplitOn(segment + rest, '/')[0] == segment;
    }
  }

  /** `/a/b/c`, `a/b` and `//a` are all filed under `/a`: any number of
      leading slashes, then the first segment up to the next slash. */
  lemma {:induction false} NamespaceKeyOf(slashes: nat, segment: string, rest: string)
    requires segment != [] && '/' !in segment
    requires rest == [] || rest[0] == '/'
    ensures NamespaceKey(Slashes(slashes) + segment + rest) == "/" + segment
  {
    if slashes == 0 {
      assert Slashes(0) + segment + rest == segment + rest;
      SegmentFirst(segment, rest);
    } else {
      NamespaceKeyOf(slashes - 1, segment, rest);
      assert Slashes(slashes) + segment + rest == "/" + (Slashes(slashes - 1) + segment + rest);
      LeadingSlash(Slashes(slashes - 1) + segment + rest);
    }
  }

  /** `n` slashes. */
  function Slashes(n: nat): (s: string)
    ensures |s| == n && forall i :: 0 <= i < n ==> s[i] == '/'
  {
    if n == 0 then "" else "/" + Slashes(n - 1)
  }

  // ---------------------------------------------------------------------
  // Grouping and sorting for `info`

  function Key(t: Topic): string {
    NamespaceKey(t.name)
  }

  /** Strictly ascending, so also free of repeats: the key order of a
      `BTreeMap`. */
  predicate Ascending(keys: seq<string>) {
    forall i, j :: 0 <= i < j < |keys| ==> keys[i] != keys[j] && StrLe(keys[i], keys[j])
  }

  /** `BTreeMap::entry(k)` on the key set: `k` added in its place unless
      already there. */
  function InsertKey(keys: seq<string>, k: string): (r: seq<string>)
    ensures forall x :: x in r <==> x in keys || x == k
  {
    if |keys| == 0 then [k]
    else if k == keys[0] then keys
    else if StrLe(k, keys[0]) then [k] + keys
    else [keys[0]] + InsertKey(keys[1..], k)
  }

  lemma {:induction false} InsertKeyAscending(keys: seq<string>, k: string)
    requires Ascending(keys)
    ensures Ascending(InsertKey(keys, k))
  {
    if |keys| > 0 && k != keys[0] {
      var r := InsertKey(keys, k);
      if StrLe(k, keys[0]) {
        forall j | 0 < j < |r|
          ensures k != r[j] && StrLe(k, r[j])
        {
          if j > 1 {
            StrLeTransitive(k, keys[0], keys[j - 1]);
            if k == keys[j - 1] {
              StrLeAntisymmetric(k, keys[0]);
            }
          }
        }
      } else {
        StrLeTotal(k, keys[0]);
        InsertKeyAscending(keys[1..], k);
        var tail := InsertKey(keys[1..], k);
        assert r == [keys[0]] + tail;
        forall j | 0 < j < |r|
          ensures keys[0] != r[j] && StrLe(keys[0], r[j])
        {
          assert r[j] in tail;
          assert r[j] in keys[1..] || r[j] == k;
        }
      }
    }
  }

  /** The keys of the topics, in ascending order, each once. */
  function Keys(topics: seq<Topic>): (keys: seq<string>)
    ensures forall x :: x in keys <==> exists i :: 0 <= i < |topics| && Key(topics[i]) == x
  {
    if |topics| == 0 then []
    else
      var init := topics[..|topics| - 1];
      var keys := InsertKey(Keys(init), Key(topics[|topics| - 1]));
      assert forall i :: 0 <= i < |init| ==> init[i] == topics[i];
      keys
  }

  lemma {:induction false} KeysAscending(topics: seq<Topic>)
    ensures Ascending(Keys(topics))
  {
    if |topics| > 0 {
      KeysAscending(topics[..|topics| - 1]);
      InsertKeyAscending(Keys(topics[..|topics| - 1]), Key(topics[|topics| - 1]));
    }
  }

  /** A topic belongs to the group of its key. */
  function HasKey(k: string): Topic -> bool {
    (t: Topic) => Key(t) == k
  }

  /** A topic belongs to one of the groups of `keys`. */
  function HasKeyIn(keys: seq<string>): Topic -> bool {
    (t: Topic) => Key(t) in keys
  }

  /** The topics of one group, in reading order (`entry(key).or_default().push`). */
  function Group(topics: seq<Topic>, k: string): seq<Topic> {
    Filter(topics, HasKey(k))
  }

  predicate SortedByName(ts: seq<Topic>) {
    forall i, j :: 0 <= i < j < |ts| ==> StrLe(ts[i].name, ts[j].name)
  }

  /** Places `t` after every topic whose name is not greater, so that equal
      names keep their reading order. */
  function InsertByName(ts: seq<Topic>, t: Topic): (r: seq<Topic>)
    ensures multiset(r) == multiset(ts) + multiset{t}
  {
    if |ts| == 0 then [t]
    else if !StrLe(ts[0].name, t.name) then [t] + ts
    else
      assert ts == [ts[0]] + ts[1..];
      [ts[0]] + InsertByName(ts[1..], t)
  }

  lemma {:induction false} InsertByNameSorted(ts: seq<Topic>, t: Topic)
    requires SortedByName(ts)
    ensures SortedByName(InsertByName(ts, t))
  {
    if |ts| > 0 {
      var r := InsertByName(ts, t);
      if !StrLe(ts[0].name, t.name) {
        StrLeTotal(ts[0].name, t.name);
        forall j | 0 < j < |r|
          ensures StrLe(t.name, r[j].name)
        {
          if j > 1 {
            StrLeTransitive(t.name, ts[0].name, ts[j - 1].name);
          }
        }
      } else {
        InsertByNameSorted(ts[1..], t);
        var tail := InsertByName(ts[1..], t);
        assert r == [ts[0]] + tail;
        forall j | 0 < j < |r|
          ensures StrLe(ts[0].name, r[j].name)
        {
          assert r[j] in multiset(tail);
          assert r[j] in ts[1..] || r[j] == t;
        }
      }
    }
  }

  /** `topics.sort_by(|a, b| a.name.cmp(&b.name))`: a stable sort by name,
      here by insertion in reading order. */
  function SortByName(ts: seq<Topic>): (r: seq<Topic>)
    ensures multiset(r) == multiset(ts)
  {
    if |ts| == 0 then []
    else
      assert ts == ts[..|ts| - 1] + [ts[|ts| - 1]];
      InsertByName(SortByName(ts[..|ts| - 1]), ts[|ts| - 1])
  }

  lemma {:induction false} SortByNameSorted(ts: seq<Topic>)
    ensures SortedByName(SortByName(ts))
  {
    if |ts| > 0 {
      SortByNameSorted(ts[..|ts| - 1]);
      InsertByNameSorted(SortByName(ts[..|ts| - 1]), ts[|ts| - 1]);
    }
  }

  /** The groups of `keys` in order, each sorted by name. */
  function Groups(topics: seq<Topic>, keys: seq<string>): seq<Topic> {
    if |keys| == 0 then [] else SortByName(Group(topics, keys[0])) + Groups(topics, keys[1..])
  }

  /** The order `info` prints the topics in: the groups in ascending key
      order, the topics of each group by name. */
  function Listing(topics: seq<Topic>): seq<Topic> {
    Groups(topics, Keys(topics))
  }

  lemma {:induction false} GroupsMultiset(topics: seq<Topic>, keys: seq<string>)
    requires Ascending(keys)
    ensures multiset(Groups(topics, keys)) == multiset(Filter(topics, HasKeyIn(keys)))
  {
    if |keys| > 0 {
      assert Ascending(keys[1..]);
      GroupsMultiset(topics, keys[1..]);
      assert forall j :: 0 <= j < |keys| - 1 ==> keys[1..][j] == keys[j + 1];
      assert keys[0] !in keys[1..];
      forall t: Topic
        ensures HasKeyIn(keys)(t) == (HasKey(keys[0])(t) || HasKeyIn(keys[1..])(t))
      {
        assert Key(t) in keys <==> Key(t) == keys[0] || Key(t) in keys[1..];
      }
      FilterDisjointUnion(topics, HasKeyIn(keys), HasKey(keys[0]), HasKeyIn(keys[1..]));
    } else {
      FilterNone(topics, HasKeyIn(keys));
    }
  }

  /** `info` prints every topic exactly once: the listing is a permutation
      of the topics read. */
  lemma {:induction false} ListingPermutation(topics: seq<Topic>)
    ensures multiset(Listing(topics)) == multiset(topics)
  {
    var keys := Keys(topics);
    KeysAscending(topics);
    GroupsMultiset(topics, keys);
    FilterAll(topics, HasKeyIn(keys));
  }

  /** `a` is listed before `b`: a smaller key, or the same key and a name
      that is not greater. */
  predicate ListedBefore(a: Topic, b: Topic) {
    (Key(a) != Key(b) && StrLe(Key(a), Key(b))) || (Key(a) == Key(b) && StrLe(a.name, b.name))
  }

  predicate InListingOrder(ts: seq<Topic>) {
    forall i, j :: 0 <= i < j < |ts| ==> ListedBefore(ts[i], ts[j])
  }

  lemma {:induction false} GroupMembers(topics: seq<Topic>, k: string, x: Topic)
    requires x in SortByName(Group(topics, k))
    ensures Key(x) == k
  {
    assert x in multiset(Group(topics, k));
    FilterMembership(topics, HasKey(k), x);
  }

  lemma {:induction false} GroupsMembers(topics: seq<Topic>, keys: seq<string>, x: Topic)
    requires x in Groups(topics, keys)
    ensures Key(x) in keys
  {
    var g := SortByName(Group(topics, keys[0]));
    if x in g {
      GroupMembers(topics, keys[0], x);
    } else {
      GroupsMembers(topics, keys[1..], x);
    }
  }

  lemma {:induction false} GroupsOrdered(topics: seq<Topic>, keys: seq<string>)
    requires Ascending(keys)
    ensures InListingOrder(Groups(topics, keys))
  {
    if |keys| > 0 {
      assert Ascending(keys[1..]);
      GroupsOrdered(topics, keys[1..]);
      SortByNameSorted(Group(topics, keys[0]));
      var all := Groups(topics, keys);
      forall i, j | 0 <= i < j < |all|
        ensures ListedBefore(all[i], all[j])
      {
        GroupsOrderedPair(topics, keys, i, j);
      }
    }
  }

  /** Two places in the listing of `keys` are in order: within the first
      group by name, across groups by key, and within the rest by its own
      order. */
  lemma {:induction false} GroupsOrderedPair(topics: seq<Topic>, keys: seq<string>, i: nat, j: nat)
    requires Ascending(keys) && |keys| > 0
    requires InListingOrder(Groups(topics, keys[1..]))
    requires SortedByName(SortByName(Group(topics, keys[0])))
    requires i < j < |Groups(topics, keys)|
    ensures ListedBefore(Groups(topics, keys)[i], Groups(topics, keys)[j])
  {
    var k := keys[0];
    var g := SortByName(Group(topics, k));
    var rest := Groups(topics, keys[1..]);
    var all := Groups(topics, keys);
    assert all == g + rest;
    if j < |g| {
      assert all[i] == g[i] && all[j] == g[j];
      GroupMembers(topics, k, all[i]);
      GroupMembers(topics, k, all[j]);
    } else if i < |g| {
      assert all[i] == g[i];
      GroupMembers(topics, k, all[i]);
      assert all[j] == rest[j - |g|];
      GroupsMembers(topics, keys[1..], all[j]);
    } else {
      assert all[i] == rest[i - |g|] && all[j] == rest[j - |g|];
    }
  }

  /** `info` lists topics by ascending namespace key, and within a key by
      name. */
  lemma {:induction false} ListingOrdered(topics: seq<Topic>)
    ensures InListingOrder(Listing(topics))
  {
    KeysAscending(topics);
    GroupsOrdered(topics, Keys(topics));
  }

  // ---------------------------------------------------------------------
  // `show`

  /** What `show` prints for one message: its position from 0, its
      timestamp and its payload size. */
  datatype ShowLine = ShowLine(index: nat, timestamp: int, size: nat)

  /** `messages.iter().take(count.unwrap_or(len)).enumerate()`. */
  function ShowLines(messages: seq<RawMessage>, count: Option<nat>): (r: seq<ShowLine>)
    ensures |r| == (match count case Some(n) => if n <= |messages| then n else |messages| case None => |messages|)
    ensures forall i :: 0 <= i < |r| ==> r[i] == ShowLine(i, messages[i].timestamp, |messages[i].data|)
  {
    var n := match count case Some(n) => n case None => |messages|;
    var shown := Take(messages, n);
    seq(|shown|, i requires 0 <= i < |shown| => ShowLine(i, shown[i].timestamp, |shown[i].data|))
  }

  /** Without a count, and with a count of at least the number of messages,
      every message is listed; a count of zero lists none. */
  lemma {:induction false} ShowAll(messages: seq<RawMessage>, n: nat)
    requires n >= |messages|
    ensures ShowLines(messages, Some(n)) == ShowLines(messages, None)
    ensures ShowLines(messages, Some(0)) == []
  {
  }

  // ---------------------------------------------------------------------
  // `dump` file names

  /** The output formats of `dump`. */
  datatype Format = Json | Csv

  function FileExtension(f: Format): string {
    match f
    case Json => ".json"
    case Csv => ".csv"
  }

  /** `topic.trim_start_matches('/').replace('/', ".") + ext`: the file
      `dump` writes, in the working directory. */
  function OutputFileName(topic: string, format: Format): (r: string)
    ensures '/' !in r
  {
    var body := ReplaceChar(TrimStartChar(topic, '/'), '/', '.');
    assert forall i :: 0 <= i < |body| ==> body[i] != '/';
    body + FileExtension(format)
  }

  /** The file name is the topic without its leading slashes, each further
      slash turned into a dot, then the extension. */
  lemma {:induction false} OutputFileNameOf(slashes: nat, rest: string, format: Format)
    requires rest == [] || rest[0] != '/'
    ensures var r := OutputFileName(Slashes(slashes) + rest, format);
      var ext := FileExtension(format);
      |r| == |rest| + |ext| && r[|rest|..] == ext
      && forall i :: 0 <= i < |rest| ==> r[i] == (if rest[i] == '/' then '.' else rest[i])
  {
    TrimSlashes(slashes, rest);
  }

  lemma {:induction false} TrimSlashes(slashes: nat, rest: string)
    requires rest == [] || rest[0] != '/'
    ensures TrimStartChar(Slashes(slashes) + rest, '/') == rest
  {
    if slashes == 0 {
      assert Slashes(0) + rest == rest;
    } else {
      TrimSlashes(slashes - 1, rest);
      assert (Slashes(slashes) + rest)[1..] == Slashes(slashes - 1) + rest;
    }
  }
}
