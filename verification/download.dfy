/** `_download_testing_data` (hcp/tests/config.py:76-91): where each remote
    key lands on the local disk, and the loop that creates missing
    directories and fetches missing files. The filesystem is a set of
    existing paths; the transfer program is a parameter that says whether a
    requested file appears. */
module Download {
  import opened Py
  import opened TestConfig

  // ---------------------------------------------------------------------
  // Key to local path

  /** A bucket prefix: `str.split` refuses an empty separator. */
  type Prefix = p: string | p != [] witness "s3:"

  /** `new_path`: the key's directory, cut after the bucket prefix, without
      the leading character, joined onto the local data root. */
  function LocalDir(key: string, prefix: Prefix, root: string): string {
    PathJoin(root, DropFirst(Last(Split(Dirname(key), prefix))))
  }

  /** `new_file`: the key's file name inside `LocalDir`. */
  function LocalFile(key: string, prefix: Prefix, root: string): string {
    PathJoin(LocalDir(key, prefix, root), Basename(key))
  }

  /** Where one key lands: its directory and its file. */
  datatype Placement = Placement(dir: string, file: string)

  /** The placement the download loop computes for every key. */
  function Placer(prefix: Prefix, root: string): string -> Placement {
    key => Placement(LocalDir(key, prefix, root), LocalFile(key, prefix, root))
  }

  lemma RStripOne(d: string, c: char)
    requires d != [] && d[|d| - 1] != c
    ensures RStrip(d + [c], c) == d
  {
    assert (d + [c])[..|d|] == d;
  }

  /** A prefix starting with something other than '/' cannot straddle a leading '/'. */
  lemma NotContainedAfterSlash(rel: string, prefix: string)
    requires prefix != [] && prefix[0] != '/' && !Contains(rel, prefix)
    ensures !Contains("/" + rel, prefix)
  {
    if Contains("/" + rel, prefix) {
      var j := Find("/" + rel, prefix);
      assert ("/" + rel)[j] == prefix[0];
      assert ("/" + rel)[j..j + |prefix|] == rel[j - 1..j - 1 + |prefix|];
      assert OccursAt(rel, prefix, j - 1);
    }
  }

  /** The key's directory is the bucket prefix and the relative directory. */
  lemma DirnameOfKey(prefix: string, rel: string, name: string)
    requires prefix != [] && prefix[0] != '/'
    requires rel != [] && rel[|rel| - 1] != '/'
    requires '/' !in name
    ensures Dirname(prefix + "/" + rel + "/" + name) == prefix + "/" + rel
    ensures Basename(prefix + "/" + rel + "/" + name) == name
  {
    var d := prefix + "/" + rel;
    var head := d + "/";
    var key := head + name;
    assert key == prefix + "/" + rel + "/" + name;
    var r := RFind(key, '/');
    assert key[|head| - 1] == '/';
    forall j | |head| <= j < |key| ensures key[j] != '/' {
      assert key[j] == name[j - |head|];
    }
    assert r == |head| - 1;
    assert key[..r + 1] == head;
    assert head[0] == prefix[0];
    RStripOne(d, '/');
    assert key[r + 1..] == name;
  }

  /** A key `<prefix>/<rel>/<name>` lands in the directory `<root>/<rel>`,
      provided the relative directory neither starts with '/' nor repeats
      the prefix. */
  lemma LocalDirLayout(prefix: Prefix, root: string, rel: string, name: string)
    requires prefix[0] != '/'
    requires rel != [] && rel[0] != '/' && rel[|rel| - 1] != '/' && !Contains(rel, prefix)
    requires '/' !in name
    requires root != [] && root[|root| - 1] != '/'
    ensures LocalDir(prefix + "/" + rel + "/" + name, prefix, root) == root + "/" + rel
  {
    var d := prefix + "/" + rel;
    DirnameOfKey(prefix, rel, name);
    assert OccursAt(d, prefix, 0);
    assert Find(d, prefix) == 0;
    assert d[|prefix|..] == "/" + rel;
    NotContainedAfterSlash(rel, prefix);
    assert Split(d, prefix) == [d[..0]] + Split("/" + rel, prefix);
    assert Split("/" + rel, prefix) == ["/" + rel];
    assert Last(Split(d, prefix)) == "/" + rel;
    assert DropFirst("/" + rel) == rel;
  }

  /** Layout: a key `<prefix>/<rel>/<name>` lands in `<root>/<rel>` as
      `<root>/<rel>/<name>`, provided the relative directory neither starts
      nor ends with '/' nor repeats the prefix, and the root is a non-empty
      path without a trailing '/'. */
  lemma LocalLayout(prefix: Prefix, root: string, rel: string, name: string)
    requires prefix[0] != '/'
    requires rel != [] && rel[0] != '/' && rel[|rel| - 1] != '/' && !Contains(rel, prefix)
    requires '/' !in name
    requires root != [] && root[|root| - 1] != '/'
    ensures LocalDir(prefix + "/" + rel + "/" + name, prefix, root) == root + "/" + rel
    ensures LocalFile(prefix + "/" + rel + "/" + name, prefix, root) == root + "/" + rel + "/" + name
  {
    var key := prefix + "/" + rel + "/" + name;
    LocalDirLayout(prefix, root, rel, name);
    DirnameOfKey(prefix, rel, name);
    var dir := root + "/" + rel;
    assert dir[|dir| - 1] == rel[|rel| - 1];
    assert name == [] || name[0] != '/';
    assert LocalFile(key, prefix, root) == PathJoin(dir, name);
  }

  /** With the configured bucket prefix and data root, a key
      `<bucket>/<rel>/<name>` is stored as `<data root>/<rel>/<name>`. */
  lemma ConfiguredLayout(rel: string, name: string)
    requires rel != [] && rel[0] != '/' && rel[|rel| - 1] != '/' && !Contains(rel, HcpPrefix)
    requires '/' !in name
    ensures LocalDir(HcpPrefix + "/" + rel + "/" + name, HcpPrefix, HcpPath) == HcpPath + "/" + rel
    ensures LocalFile(HcpPrefix + "/" + rel + "/" + name, HcpPrefix, HcpPath) == HcpPath + "/" + rel + "/" + name
  {
    LocalLayout(HcpPrefix, HcpPath, rel, name);
  }

  /** Distinct keys of that shape get distinct local path strings. */
  lemma LocalFileInjective(prefix: Prefix, root: string, rel1: string, name1: string, rel2: string, name2: string)
    requires prefix[0] != '/'
    requires rel1 != [] && rel1[0] != '/' && rel1[|rel1| - 1] != '/' && !Contains(rel1, prefix)
    requires rel2 != [] && rel2[0] != '/' && rel2[|rel2| - 1] != '/' && !Contains(rel2, prefix)
    requires '/' !in name1 && '/' !in name2
    requires root != [] && root[|root| - 1] != '/'
    requires LocalFile(prefix + "/" + rel1 + "/" + name1, prefix, root)
          == LocalFile(prefix + "/" + rel2 + "/" + name2, prefix, root)
    ensures prefix + "/" + rel1 + "/" + name1 == prefix + "/" + rel2 + "/" + name2
  {
    LocalLayout(prefix, root, rel1, name1);
    LocalLayout(prefix, root, rel2, name2);
    SameTailAfterSameHead(root, prefix, rel1, name1, rel2, name2);
  }

  lemma SameTailAfterSameHead(root: string, prefix: string, rel1: string, name1: string, rel2: string, name2: string)
    requires root + "/" + rel1 + "/" + name1 == root + "/" + rel2 + "/" + name2
    ensures prefix + "/" + rel1 + "/" + name1 == prefix + "/" + rel2 + "/" + name2
  {
    var t1, t2 := rel1 + "/" + name1, rel2 + "/" + name2;
    assert (root + "/" + rel1 + "/" + name1)[|root| + 1..] == t1;
    assert (root + "/" + rel2 + "/" + name2)[|root| + 1..] == t2;
    assert prefix + "/" + rel1 + "/" + name1 == prefix + "/" + t1;
    assert prefix + "/" + rel2 + "/" + name2 == prefix + "/" + t2;
  }

  // ---------------------------------------------------------------------
  // The download loop, as a function of the starting state

  /** How the loop ended: every key handled, or the existence assertion
      after a transfer failed for `key`. */
  datatype Outcome = Completed | AssertionFailed(key: string)

  /** The paths that exist, the directories the loop made, the keys it handed
      to the transfer program (in order) and how it ended. */
  datatype DiskState = DiskState(paths: set<string>, made: seq<string>, transfers: seq<string>, outcome: Outcome)

  /** One iteration for `key`, which lands at `at`. */
  function FetchKey(st: DiskState, key: string, at: Placement, arrives: string -> bool): DiskState
  {
    if st.outcome.AssertionFailed? then st
    else
      var dir := at.dir;
      var file := at.file;
      var st1 := if dir in st.paths then st else st.(paths := st.paths + {dir}, made := st.made + [dir]);
      if file in st1.paths then st1
      else if arrives(key) then st1.(paths := st1.paths + {file}, transfers := st1.transfers + [key])
      else st1.(transfers := st1.transfers + [key], outcome := AssertionFailed(key))
  }

  /** The loop over `keys`, stopping at the first failed assertion. The
      disk and the logs are only ever appended to. */
  function FetchAll(st: DiskState, keys: seq<string>, place: string -> Placement, arrives: string -> bool): (r: DiskState)
    ensures st.paths <= r.paths
    ensures |st.made| <= |r.made| && r.made[..|st.made|] == st.made
    ensures |st.transfers| <= |r.transfers| && r.transfers[..|st.transfers|] == st.transfers
    decreases |keys|
  {
    if keys == [] then st
    else
      var key := keys[|keys| - 1];
      FetchKey(FetchAll(st, keys[..|keys| - 1], place, arrives), key, place(key), arrives)
  }

  /** Once the assertion has failed, the remaining keys change nothing. */
  lemma {:induction false} FailureIsFinal(st: DiskState, keys: seq<string>, j: nat, place: string -> Placement, arrives: string -> bool)
    requires j <= |keys|
    requires FetchAll(st, keys[..j], place, arrives).outcome.AssertionFailed?
    ensures FetchAll(st, keys, place, arrives) == FetchAll(st, keys[..j], place, arrives)
    decreases |keys|
  {
    if j < |keys| {
      var front := keys[..|keys| - 1];
      assert front[..j] == keys[..j];
      FailureIsFinal(st, front, j, place, arrives);
    } else {
      assert keys[..j] == keys;
    }
  }

  /** After a completed run every key's directory and file exist; after a
      failed one, the failing key was transferred last and its file is
      still missing. */
  lemma {:induction false} FetchEndState(st: DiskState, keys: seq<string>, place: string -> Placement, arrives: string -> bool)
    requires st.outcome == Completed
    ensures var r := FetchAll(st, keys, place, arrives);
            r.outcome == Completed ==>
              forall k :: k in keys ==> place(k).dir in r.paths && place(k).file in r.paths
    ensures var r := FetchAll(st, keys, place, arrives);
            r.outcome.AssertionFailed? ==>
              r.outcome.key in keys && !arrives(r.outcome.key) && place(r.outcome.key).file !in r.paths
              && |r.transfers| > 0 && Last(r.transfers) == r.outcome.key
    decreases |keys|
  {
    if keys != [] {
      var front := keys[..|keys| - 1];
      FetchEndState(st, front, place, arrives);
      assert keys == front + [keys[|keys| - 1]];
    }
  }

  /** Entries that `r` has gained over `st`. */
  function Added<T>(r: seq<T>, st: seq<T>): seq<T>
    requires |st| <= |r|
  {
    r[|st|..]
  }

  predicate Distinct<T(==)>(s: seq<T>) {
    forall a, b :: 0 <= a < b < |s| ==> s[a] != s[b]
  }

  /** The loop makes a directory only when it is absent: the directories
      it makes are distinct, new, and exist afterwards. */
  lemma {:induction false} FetchMakesOnlyAbsentDirs(st: DiskState, keys: seq<string>, place: string -> Placement, arrives: string -> bool)
    requires st.outcome == Completed
    ensures var r := FetchAll(st, keys, place, arrives);
            var made := Added(r.made, st.made);
            Distinct(made) && forall d :: d in made ==> d !in st.paths && d in r.paths
    decreases |keys|
  {
    if keys != [] {
      var front := keys[..|keys| - 1];
      var key := keys[|keys| - 1];
      FetchMakesOnlyAbsentDirs(st, front, place, arrives);
      var q := FetchAll(st, front, place, arrives);
      var r := FetchAll(st, keys, place, arrives);
      assert r == FetchKey(q, key, place(key), arrives);
      if q.outcome == Completed {
        var dir := place(key).dir;
        var madeQ, madeR := Added(q.made, st.made), Added(r.made, st.made);
        if dir !in q.paths {
          assert madeR == madeQ + [dir];
        } else {
          assert madeR == madeQ;
        }
      }
    }
  }

  /** The loop requests a file only when it is absent: the keys it hands to
      the transfer program name distinct files that did not exist, and after
      a completed run each of those files exists. */
  lemma {:induction false} FetchTransfersOnlyAbsentFiles(st: DiskState, keys: seq<string>, place: string -> Placement, arrives: string -> bool)
    requires st.outcome == Completed
    ensures var r := FetchAll(st, keys, place, arrives);
            var sent := Added(r.transfers, st.transfers);
            (forall a, b :: 0 <= a < b < |sent| ==> place(sent[a]).file != place(sent[b]).file)
            && (forall k :: k in sent ==> place(k).file !in st.paths)
            && (r.outcome == Completed ==> forall k :: k in sent ==> place(k).file in r.paths)
    decreases |keys|
  {
    if keys != [] {
      var front := keys[..|keys| - 1];
      var key := keys[|keys| - 1];
      FetchTransfersOnlyAbsentFiles(st, front, place, arrives);
      var q := FetchAll(st, front, place, arrives);
      var r := FetchAll(st, keys, place, arrives);
      assert r == FetchKey(q, key, place(key), arrives);
      if q.outcome == Completed {
        var dir, file := place(key).dir, place(key).file;
        var sentQ, sentR := Added(q.transfers, st.transfers), Added(r.transfers, st.transfers);
        if file !in q.paths && file != dir {
          assert sentR == sentQ + [key];
        } else {
          assert sentR == sentQ;
        }
      }
    }
  }

  /** Every path the loop adds is the directory or the file of one of its keys. */
  lemma {:induction false} FetchAddsOnlyKeyPaths(st: DiskState, keys: seq<string>, place: string -> Placement, arrives: string -> bool)
    ensures forall p :: p in FetchAll(st, keys, place, arrives).paths ==>
              p in st.paths || exists k :: k in keys && (p == place(k).dir || p == place(k).file)
    decreases |keys|
  {
    if keys != [] {
      var front := keys[..|keys| - 1];
      FetchAddsOnlyKeyPaths(st, front, place, arrives);
      assert forall k :: k in front ==> k in keys;
      assert keys[|keys| - 1] in keys;
    }
  }

  /** When every key's directory and file already exist, the loop changes nothing. */
  lemma {:induction false} FetchPresentIsNoop(st: DiskState, keys: seq<string>, place: string -> Placement, arrives: string -> bool)
    requires st.outcome == Completed
    requires forall k :: k in keys ==> place(k).dir in st.paths && place(k).file in st.paths
    ensures FetchAll(st, keys, place, arrives) == st
    decreases |keys|
  {
    if keys != [] {
      var front := keys[..|keys| - 1];
      assert forall k :: k in front ==> k in keys;
      assert keys[|keys| - 1] in keys;
      FetchPresentIsNoop(st, front, place, arrives);
    }
  }

  /** A second run over the same keys after a completed one makes no
      directory, transfers nothing and leaves the disk as it was. */
  lemma SecondFetchIsNoop(st: DiskState, keys: seq<string>, place: string -> Placement, arrives: string -> bool)
    requires st.outcome == Completed
    requires FetchAll(st, keys, place, arrives).outcome == Completed
    ensures var r := FetchAll(st, keys, place, arrives);
            FetchAll(r, keys, place, arrives) == r
  {
    FetchEndState(st, keys, place, arrives);
    FetchPresentIsNoop(FetchAll(st, keys, place, arrives), keys, place, arrives);
  }

  // ---------------------------------------------------------------------
  // The download loop, run against a disk

  /** The local disk the fixtures are downloaded to, with a record of what
      the download loop did to it. */
  class LocalDisk {
    var paths: set<string>
    var made: seq<string>
    var transfers: seq<string>

    constructor (existing: set<string>)
      ensures paths == existing && made == [] && transfers == []
    {
      paths, made, transfers := existing, [], [];
    }

    function State(outcome: Outcome): DiskState
      reads this
    {
      DiskState(paths, made, transfers, outcome)
    }

    /** The body of the download loop for one key landing at `at`: create
        the directory if absent; if the file is absent, hand the key to the
        transfer program and fail the assertion unless the file then exists. */
    method FetchInto(key: string, at: Placement, arrives: string -> bool) returns (outcome: Outcome)
      modifies this
      ensures State(outcome) == FetchKey(old(State(Completed)), key, at, arrives)
    {
      outcome := Completed;
      if at.dir !in paths {
        paths := paths + {at.dir};
        made := made + [at.dir];
      }
      if at.file !in paths {
        transfers := transfers + [key];
        if !arrives(key) {
          outcome := AssertionFailed(key);
          return;
        }
        paths := paths + {at.file};
      }
    }

    /** The download loop over `keys`, each key landing where `place` puts
        it, until the existence assertion fails. */
    method FetchKeys(keys: seq<string>, place: string -> Placement, arrives: string -> bool)
      returns (outcome: Outcome)
      modifies this
      ensures State(outcome) == FetchAll(old(State(Completed)), keys, place, arrives)
    {
      ghost var start := State(Completed);
      outcome := Completed;
      var i := 0;
      while i < |keys|
        invariant 0 <= i <= |keys|
        invariant outcome == Completed
        invariant State(outcome) == FetchAll(start, keys[..i], place, arrives)
      {
        var key := keys[i];
        assert keys[..i + 1][..i] == keys[..i];
        outcome := FetchInto(key, place(key), arrives);
        if outcome.AssertionFailed? {
          FailureIsFinal(start, keys, i + 1, place, arrives);
          return;
        }
        i := i + 1;
      }
      assert keys[..i] == keys;
    }

    /** `_download_testing_data()`: the loop with each key placed at
        `new_path` and `new_file` under the data root. */
    method DownloadTestingData(keys: seq<string>, prefix: Prefix, root: string, arrives: string -> bool)
      returns (outcome: Outcome)
      modifies this
      ensures State(outcome) == FetchAll(old(State(Completed)), keys, Placer(prefix, root), arrives)
    {
      outcome := FetchKeys(keys, Placer(prefix, root), arrives);
    }
  }
}
