/** The answer to a get-patch request from memory, without the database. */
module PatchCaches {
  import opened Bytes

  const HASH_LENGTH: nat := 4
  const MAX_FILENAME_LENGTH: nat := 512

  /** A name as it is decoded from a request. */
  type FileName = s: string | |s| < MAX_FILENAME_LENGTH witness ""

  /** A file the client asks for: one it does not have, or one it has in another version. */
  datatype Wanted = Missing(name: FileName) | Outdated(name: FileName, hash: seq<Byte>)

  /** A file in the cache; for a patched file the data begin with the hash of the older version. */
  datatype CachedFile = CachedFile(name: string, data: seq<Byte>, dataLength: nat, fileLength: nat, context: nat)

  datatype Cache = Cache(loaded: bool, application: string, minTime: real, maxTime: real,
                         patchedFiles: seq<CachedFile>, addedFiles: seq<CachedFile>,
                         changedFiles: seq<string>, deletedFiles: seq<string>)
  {
    predicate Valid() {
      forall k | 0 <= k < |patchedFiles| :: |patchedFiles[k].data| >= HASH_LENGTH
    }
  }

  /** A file that will be pushed to the client; its data are read later. */
  datatype Node = Node(name: string, dataLength: nat, fileLength: nat, context: nat)

  datatype Answer = FromCache(patchList: seq<Node>) | Dropped | FromDatabase

  // ---------------------------------------------------------------- which cached file is used

  /** `f` is the first file of that name. */
  ghost predicate First(files: seq<CachedFile>, name: string, f: CachedFile) {
    exists j :: 0 <= j < |files| && files[j] == f && f.name == name && forall k | 0 <= k < j :: files[k].name != name
  }

  /** `f` may be sent for `w`: the added file of that name, or the patch for exactly the version the
      client has. */
  ghost predicate Supplies(c: Cache, w: Wanted, f: CachedFile)
    requires c.Valid()
  {
    match w
    case Missing(name) => First(c.addedFiles, name, f)
    case Outdated(name, hash) =>
      && |hash| == HASH_LENGTH && First(c.patchedFiles, name, f)
      && |f.data| >= HASH_LENGTH && f.data[..HASH_LENGTH] == hash
  }

  ghost predicate Supplied(c: Cache, w: Wanted)
    requires c.Valid()
  {
    exists f :: Supplies(c, w, f)
  }

  lemma FirstIsUnique(files: seq<CachedFile>, name: string, f: CachedFile, g: CachedFile)
    requires First(files, name, f) && First(files, name, g)
    ensures f == g
  {
  }

  function NodeOf(f: CachedFile): Node {
    Node(f.name, f.dataLength, f.fileLength, f.context)
  }

  ghost function Supply(c: Cache, w: Wanted): (f: CachedFile)
    requires c.Valid() && Supplied(c, w)
    ensures Supplies(c, w, f) && f.name == w.name
  {
    var f :| Supplies(c, w, f);
    f
  }

  lemma SupplyIs(c: Cache, w: Wanted, f: CachedFile)
    requires c.Valid() && Supplies(c, w, f)
    ensures Supply(c, w) == f
  {
    match w
    case Missing(name) => FirstIsUnique(c.addedFiles, name, f, Supply(c, w));
    case Outdated(name, _) => FirstIsUnique(c.patchedFiles, name, f, Supply(c, w));
  }

  // ---------------------------------------------------------------- the list that is sent

  /** Where the list has a file of that name. */
  function IndexOf(list: seq<Node>, name: string): (i: nat)
    ensures i <= |list| && (i < |list| ==> list[i].name == name)
    ensures forall k | 0 <= k < i :: list[k].name != name
  {
    if list == [] then 0 else if list[0].name == name then 0 else 1 + IndexOf(list[1..], name)
  }

  function Without(list: seq<Node>, i: nat): (rest: seq<Node>)
    requires i < |list|
    ensures |rest| == |list| - 1
    ensures forall k | 0 <= k < |rest| :: rest[k] == if k < i then list[k] else list[k + 1]
  {
    list[..i] + list[i + 1..]
  }

  /** `FileList::AddFile` for a file without data: one of the same name and lengths is kept, one with
      other lengths is replaced by a new entry at the end. */
  function AddFile(list: seq<Node>, n: Node): seq<Node> {
    var i := IndexOf(list, n.name);
    if i == |list| then list + [n]
    else if list[i].fileLength == n.fileLength && list[i].dataLength == n.dataLength then list
    else Without(list, i) + [n]
  }

  function Listed(nodes: seq<Node>): seq<Node> {
    if nodes == [] then [] else AddFile(Listed(nodes[..|nodes| - 1]), nodes[|nodes| - 1])
  }

  ghost predicate DistinctNames(nodes: seq<Node>) {
    forall i, j | 0 <= i < j < |nodes| :: nodes[i].name != nodes[j].name
  }

  ghost predicate Holds(nodes: seq<Node>, name: string) {
    exists k :: 0 <= k < |nodes| && nodes[k].name == name
  }

  /** Adding keeps names distinct, and afterwards the list has the name that was added and the names
      it had before. */
  lemma AddFileNames(list: seq<Node>, n: Node, name: string)
    requires DistinctNames(list)
    ensures DistinctNames(AddFile(list, n))
    ensures Holds(AddFile(list, n), name) <==> Holds(list, name) || name == n.name
  {
    var i, after := IndexOf(list, n.name), AddFile(list, n);
    if i == |list| {
      assert Holds(list, name) ==> Holds(after, name) by {
        if k :| 0 <= k < |list| && list[k].name == name {
          assert after[k].name == name;
        }
      }
      assert after[|list|] == n;
    } else if after != list {
      var rest := Without(list, i);
      assert after[|rest|] == n;
      assert Holds(list, name) && name != n.name ==> Holds(after, name) by {
        if k :| 0 <= k < |list| && list[k].name == name && name != n.name {
          assert after[if k < i then k else k - 1].name == name;
        }
      }
    }
  }

  /** The list that is sent has every requested name exactly once. */
  lemma {:induction false} ListedNames(nodes: seq<Node>, name: string)
    ensures DistinctNames(Listed(nodes))
    ensures Holds(Listed(nodes), name) <==> Holds(nodes, name)
  {
    if nodes != [] {
      var n := |nodes| - 1;
      ListedNames(nodes[..n], name);
      AddFileNames(Listed(nodes[..n]), nodes[n], name);
      assert nodes == nodes[..n] + [nodes[n]];
    }
  }

  lemma DistinctOneMore(before: seq<Node>, last: Node)
    ensures DistinctNames(before + [last]) <==> DistinctNames(before) && !Holds(before, last.name)
  {
    var nodes := before + [last];
    assert forall k | 0 <= k < |before| :: before[k] == nodes[k];
    if DistinctNames(nodes) {
      forall k | 0 <= k < |before| ensures before[k].name != last.name {
        assert nodes[k].name != nodes[|before|].name;
      }
    }
  }

  /** The list is the requested files one by one, in order, exactly when no name is requested twice;
      otherwise it is shorter. */
  lemma {:induction false} ListedExact(nodes: seq<Node>)
    ensures Listed(nodes) == nodes <==> DistinctNames(nodes)
    ensures |Listed(nodes)| == |nodes| <==> DistinctNames(nodes)
    ensures |Listed(nodes)| <= |nodes|
  {
    if nodes != [] {
      var n := |nodes| - 1;
      var before, last := nodes[..n], nodes[n];
      ListedExact(before);
      ListedNames(before, last.name);
      DistinctOneMore(before, last);
      assert nodes == before + [last];
    }
  }

  // ---------------------------------------------------------------- the lookup

  /** A hash of another length. */
  predicate Malformed(w: Wanted) {
    w.Outdated? && |w.hash| != HASH_LENGTH
  }

  ghost predicate AllSupplied(c: Cache, wanted: seq<Wanted>)
    requires c.Valid()
  {
    forall k | 0 <= k < |wanted| :: Supplied(c, wanted[k])
  }

  /** A malformed hash is reached before the lookup has failed. */
  ghost predicate Refuses(c: Cache, wanted: seq<Wanted>)
    requires c.Valid()
  {
    exists i :: 0 <= i < |wanted| && Malformed(wanted[i]) && AllSupplied(c, wanted[..i])
  }

  ghost function Nodes(c: Cache, wanted: seq<Wanted>): (nodes: seq<Node>)
    requires c.Valid() && AllSupplied(c, wanted)
    ensures |nodes| == |wanted|
    ensures forall k | 0 <= k < |wanted| :: nodes[k] == NodeOf(Supply(c, wanted[k])) && nodes[k].name == wanted[k].name
  {
    seq(|wanted|, k requires 0 <= k < |wanted| => NodeOf(Supply(c, wanted[k])))
  }

  /** All or nothing: every file comes from the cache, or nothing does. */
  ghost function AnswerTo(c: Cache, wanted: seq<Wanted>): Answer
    requires c.Valid()
  {
    if AllSupplied(c, wanted) then FromCache(Listed(Nodes(c, wanted)))
    else if Refuses(c, wanted) then Dropped
    else FromDatabase
  }

  /** A malformed entry cannot be supplied, so a request is never both served and refused. */
  lemma AnswersExclude(c: Cache, wanted: seq<Wanted>)
    requires c.Valid()
    ensures AnswerTo(c, wanted).FromCache? <==> AllSupplied(c, wanted)
    ensures AnswerTo(c, wanted).Dropped? <==> Refuses(c, wanted)
  {
    if Refuses(c, wanted) {
      var i :| 0 <= i < |wanted| && Malformed(wanted[i]) && AllSupplied(c, wanted[..i]);
      assert !Supplied(c, wanted[i]);
    }
  }

  /** What is sent from the cache names every requested file exactly once, and has one entry for every
      requested file, in the order of the request, exactly when no file is requested twice. */
  lemma OneEntryPerFile(c: Cache, wanted: seq<Wanted>, name: string)
    requires c.Valid() && AllSupplied(c, wanted)
    ensures var sent := Listed(Nodes(c, wanted));
            && DistinctNames(sent)
            && (Holds(sent, name) <==> exists k :: 0 <= k < |wanted| && wanted[k].name == name)
            && (sent == Nodes(c, wanted) <==> forall i, j | 0 <= i < j < |wanted| :: wanted[i].name != wanted[j].name)
            && (|sent| == |wanted| <==> forall i, j | 0 <= i < j < |wanted| :: wanted[i].name != wanted[j].name)
  {
    var nodes := Nodes(c, wanted);
    ListedNames(nodes, name);
    ListedExact(nodes);
    assert forall k | 0 <= k < |wanted| :: nodes[k].name == wanted[k].name;
  }

  // ---------------------------------------------------------------- said of the files themselves

  /** The cache can serve the file: there is an added file of that name, or the first patched file of that
      name begins with the four bytes of the client's hash. */
  predicate Servable(c: Cache, w: Wanted)
    requires c.Valid()
  {
    match w
    case Missing(name) => exists f :: f in c.addedFiles && f.name == name
    case Outdated(name, hash) =>
      && |hash| == 4
      && exists j :: 0 <= j < |c.patchedFiles| && c.patchedFiles[j].name == name && hash <= c.patchedFiles[j].data
                     && forall k | 0 <= k < j :: c.patchedFiles[k].name != name
  }

  lemma {:induction false} SomeFirst(files: seq<CachedFile>, name: string) returns (f: CachedFile)
    requires exists g :: g in files && g.name == name
    ensures First(files, name, f)
  {
    var n := |files| - 1;
    if g :| g in files[..n] && g.name == name {
      f := SomeFirst(files[..n], name);
    } else {
      f := files[n];
    }
  }

  lemma ServableExactly(c: Cache, w: Wanted)
    requires c.Valid()
    ensures Supplied(c, w) <==> Servable(c, w)
  {
    match w
    case Missing(name) =>
      if exists f :: f in c.addedFiles && f.name == name {
        var f := SomeFirst(c.addedFiles, name);
        assert Supplies(c, w, f);
      }
    case Outdated(name, hash) =>
      if Servable(c, w) {
        var j :| 0 <= j < |c.patchedFiles| && c.patchedFiles[j].name == name && hash <= c.patchedFiles[j].data
            && forall k | 0 <= k < j :: c.patchedFiles[k].name != name;
        assert Supplies(c, w, c.patchedFiles[j]);
      }
  }

  /** Which requests are served from memory, and which are dropped. */
  lemma AnswerMeans(c: Cache, wanted: seq<Wanted>)
    requires c.Valid()
    ensures AnswerTo(c, wanted).FromCache? <==> forall k | 0 <= k < |wanted| :: Servable(c, wanted[k])
    ensures AnswerTo(c, wanted).Dropped? <==>
              exists i :: 0 <= i < |wanted| && wanted[i].Outdated? && |wanted[i].hash| != 4
                          && forall k | 0 <= k < i :: Servable(c, wanted[k])
  {
    hide Servable, Supplied;
    AnswersExclude(c, wanted);
    forall w ensures Supplied(c, w) <==> Servable(c, w) {
      ServableExactly(c, w);
    }
  }

  /** Entry `e` is about file `j` of the cache, the first of the name `name`. */
  predicate EntryOf(e: Node, files: seq<CachedFile>, j: nat, name: string) {
    && j < |files| && files[j].name == name && (forall k | 0 <= k < j :: files[k].name != name)
    && e.name == name && e.dataLength == files[j].dataLength && e.fileLength == files[j].fileLength
    && e.context == files[j].context
  }

  /** The file a requested one is served from. */
  lemma NodeDescribes(c: Cache, wanted: seq<Wanted>, k: nat) returns (j: nat)
    requires c.Valid() && AllSupplied(c, wanted) && k < |wanted|
    ensures EntryOf(Nodes(c, wanted)[k], if wanted[k].Missing? then c.addedFiles else c.patchedFiles, j, wanted[k].name)
  {
    assert Supplied(c, wanted[k]);
    var f := Supply(c, wanted[k]);
    var files := if wanted[k].Missing? then c.addedFiles else c.patchedFiles;
    j :| 0 <= j < |files| && files[j] == f && forall m | 0 <= m < j :: files[m].name != wanted[k].name;
  }

  /** When no file is requested twice, every entry that is sent has the name and both lengths of the first
      cached file of the requested name, and tells where its data are. */
  lemma EntriesDescribe(c: Cache, wanted: seq<Wanted>, list: seq<Node>, k: nat) returns (j: nat)
    requires c.Valid() && AnswerTo(c, wanted) == FromCache(list) && k < |wanted|
    requires forall m, n | 0 <= m < n < |wanted| :: wanted[m].name != wanted[n].name
    ensures |list| == |wanted|
    ensures EntryOf(list[k], if wanted[k].Missing? then c.addedFiles else c.patchedFiles, j, wanted[k].name)
  {
    hide EntryOf, Listed, Nodes;
    AnswersExclude(c, wanted);
    OneEntryPerFile(c, wanted, wanted[k].name);
    j := NodeDescribes(c, wanted, k);
  }

  /** How the list takes a file: at its end, unless it has one of that name with the same lengths; one with
      other lengths gives way. */
  lemma AddFileMeans(list: seq<Node>, n: Node, i: nat)
    requires DistinctNames(list)
    ensures (forall k | 0 <= k < |list| :: list[k].name != n.name) ==> AddFile(list, n) == list + [n]
    ensures i < |list| && list[i].name == n.name ==>
              var same := list[i].dataLength == n.dataLength && list[i].fileLength == n.fileLength;
              AddFile(list, n) == if same then list else list[..i] + list[i + 1..] + [n]
  {
    var j := IndexOf(list, n.name);
    assert i < |list| && list[i].name == n.name && j < |list| ==> i == j;
  }

  lemma {:induction false} ListedLast(nodes: seq<Node>, i: nat) returns (m: nat)
    requires i < |nodes| && forall j | i < j < |nodes| :: nodes[j].name != nodes[i].name
    ensures m < |Listed(nodes)|
    ensures var e := Listed(nodes)[m];
            e.name == nodes[i].name && e.dataLength == nodes[i].dataLength && e.fileLength == nodes[i].fileLength
  {
    hide AddFile, DistinctNames;
    var n := |nodes| - 1;
    var before := Listed(nodes[..n]);
    ListedNames(nodes[..n], nodes[n].name);
    var k := IndexOf(before, nodes[n].name);
    AddFileMeans(before, nodes[n], k);
    if i == n {
      var same := k < |before| && before[k].dataLength == nodes[n].dataLength
                  && before[k].fileLength == nodes[n].fileLength;
      m := if same then k else |Listed(nodes)| - 1;
    } else {
      m := ListedLast(nodes[..n], i);
      var same := k == |before| || (before[k].dataLength == nodes[n].dataLength
                                    && before[k].fileLength == nodes[n].fileLength);
      m := if same || m < k then m else m - 1;
    }
  }

  /** When a file is requested more than once, its entry has the lengths of the last one requested. */
  lemma LastRequested(c: Cache, wanted: seq<Wanted>, list: seq<Node>, i: nat) returns (m: nat, j: nat)
    requires c.Valid() && AnswerTo(c, wanted) == FromCache(list) && i < |wanted|
    requires forall k | i < k < |wanted| :: wanted[k].name != wanted[i].name
    ensures m < |list| && list[m].name == wanted[i].name
    ensures var files := if wanted[i].Missing? then c.addedFiles else c.patchedFiles;
            && j < |files| && files[j].name == wanted[i].name
            && (forall k | 0 <= k < j :: files[k].name != wanted[i].name)
            && list[m].dataLength == files[j].dataLength && list[m].fileLength == files[j].fileLength
  {
    hide Listed;
    AnswersExclude(c, wanted);
    j := NodeDescribes(c, wanted, i);
    m := ListedLast(Nodes(c, wanted), i);
  }

  lemma NodesOneMore(c: Cache, wanted: seq<Wanted>, i: nat, f: CachedFile)
    requires c.Valid() && i < |wanted| && AllSupplied(c, wanted[..i]) && Supplies(c, wanted[i], f)
    ensures AllSupplied(c, wanted[..i + 1])
    ensures Listed(Nodes(c, wanted[..i + 1])) == AddFile(Listed(Nodes(c, wanted[..i])), NodeOf(f))
  {
    hide Supplies, AddFile;
    SupplyIs(c, wanted[i], f);
    assert wanted[..i + 1] == wanted[..i] + [wanted[i]];
    assert AllSupplied(c, wanted[..i + 1]);
    var before, nodes := Nodes(c, wanted[..i]), Nodes(c, wanted[..i + 1]);
    assert nodes == before + [NodeOf(f)];
    assert nodes[..i] == before;
  }

  /** The lookup ends in the database at the first file that cannot be supplied and is not malformed. */
  lemma NotSupplied(c: Cache, wanted: seq<Wanted>, i: nat)
    requires c.Valid() && i < |wanted| && AllSupplied(c, wanted[..i]) && !Malformed(wanted[i]) &&
              !Supplied(c, wanted[i])
    ensures AnswerTo(c, wanted) == FromDatabase
  {
    assert !AllSupplied(c, wanted);
    forall k | 0 <= k < i ensures !Malformed(wanted[k]) {
      assert Supplied(c, wanted[..i][k]);
    }
    forall k | i < k < |wanted| ensures !AllSupplied(c, wanted[..k]) {
      assert !Supplied(c, wanted[..k][i]);
    }
  }

  lemma NoPatch(c: Cache, name: FileName, hash: seq<Byte>, j: nat)
    requires c.Valid() && j <= |c.patchedFiles| && |hash| == HASH_LENGTH
    requires if j == |c.patchedFiles| then forall k | 0 <= k < j :: c.patchedFiles[k].name != name
             else First(c.patchedFiles, name, c.patchedFiles[j]) && c.patchedFiles[j].data[..HASH_LENGTH] != hash
    ensures !Supplied(c, Outdated(name, hash))
  {
    if f :| Supplies(c, Outdated(name, hash), f) {
      if j < |c.patchedFiles| {
        FirstIsUnique(c.patchedFiles, name, f, c.patchedFiles[j]);
      }
    }
  }

  method FindFile(files: seq<CachedFile>, name: string) returns (j: nat)
    ensures j <= |files|
    ensures j < |files| ==> First(files, name, files[j])
    ensures j == |files| ==> forall k | 0 <= k < |files| :: files[k].name != name
  {
    j := 0;
    while j < |files|
      invariant j <= |files|
      invariant forall k | 0 <= k < j :: files[k].name != name
    {
      if name == files[j].name {
        break;
      }
      j := j + 1;
    }
  }

  /** The lookup loop of `OnGetPatch`. */
  method LookUp(c: Cache, wanted: seq<Wanted>) returns (a: Answer)
    requires c.Valid()
    ensures a == AnswerTo(c, wanted)
  {
    AnswersExclude(c, wanted);
    var patchList: seq<Node> := [];
    var i := 0;
    while i < |wanted|
      invariant 0 <= i <= |wanted| && AllSupplied(c, wanted[..i])
      invariant patchList == Listed(Nodes(c, wanted[..i]))
    {
      match wanted[i] {
      case Outdated(userFilename, userHash) =>
        if |userHash| != HASH_LENGTH {
          return Dropped;
        }
        var j := FindFile(c.patchedFiles, userFilename);
        if j == |c.patchedFiles| || c.patchedFiles[j].data[..HASH_LENGTH] != userHash {
          NoPatch(c, userFilename, userHash, j);
          NotSupplied(c, wanted, i);
          return FromDatabase;
        }
        NodesOneMore(c, wanted, i, c.patchedFiles[j]);
        patchList := AddFile(patchList, NodeOf(c.patchedFiles[j]));
      case Missing(userFilename) =>
        var j := FindFile(c.addedFiles, userFilename);
        if j == |c.addedFiles| {
          NotSupplied(c, wanted, i);
          return FromDatabase;
        }
        NodesOneMore(c, wanted, i, c.addedFiles[j]);
        patchList := AddFile(patchList, NodeOf(c.addedFiles[j]));
      }
      i := i + 1;
    }
    assert wanted[..i] == wanted;
    a := FromCache(patchList);
  }
}
