/** The directory walker `append_audio_files`, over an abstract directory
    tree. Reading a directory, reaching one of its entries and reading that
    entry's metadata can each fail; the tree records which do. */
module Walker {
  import opened Base
  import opened Paths
  import opened Classifier
  import opened Seqs

  /** What an entry's metadata reports. Entry metadata does not follow
      symbolic links, so a link is `Other`, never `Dir` or `File`. */
  datatype Node = Dir(listable: bool, entries: seq<Entry>) | File | Other

  /** One item of a directory listing, in enumeration order. `reachable` is
      false when the listing yields an error for the item, and
      `metadataReadable` is false when its metadata cannot be read. */
  datatype Entry = Entry(name: seq<byte>, reachable: bool, metadataReadable: bool, node: Node)

  predicate Fails(e: Entry) {
    !e.reachable || !e.metadataReadable
  }

  /** The paths `append_audio_files(dir, recurse)` appends. A node that is
      not a listable directory yields nothing. */
  function Walk(dir: Path, node: Node, recurse: bool): seq<Path>
    decreases node
  {
    match node
    case Dir(listable, entries) => if listable then WalkEntries(dir, entries, recurse) else []
    case _ => []
  }

  /** The entries in order, up to (and not including) the first that fails:
      a failing entry ends the whole listing, not just itself. */
  function WalkEntries(dir: Path, entries: seq<Entry>, recurse: bool): seq<Path>
    decreases entries
  {
    if entries == [] then []
    else if Fails(entries[0]) then []
    else Visit(dir, entries[0], recurse) + WalkEntries(dir, entries[1..], recurse)
  }

  /** A readable entry: descend into a directory when recursing, keep a
      regular file that the classifier accepts, skip everything else. */
  function Visit(dir: Path, entry: Entry, recurse: bool): seq<Path>
    decreases entry
  {
    var path := Join(dir, entry.name);
    if entry.node.Dir? && recurse then Walk(path, entry.node, recurse)
    else if entry.node.File? && KeepFile(path) then [path]
    else []
  }

  /** `append_audio_files`: appends to `audioFiles` what the walk finds. */
  method AppendAudioFiles(audioFiles: seq<Path>, pathToSearch: Path, node: Node, recurse: bool)
    returns (result: seq<Path>)
    ensures result == audioFiles + Walk(pathToSearch, node, recurse)
    decreases node
  {
    result := audioFiles;
    if !node.Dir? || !node.listable {
      // the directory cannot be read
      return;
    }
    var entries := node.entries;
    var i := 0;
    while i < |entries|
      invariant 0 <= i <= |entries|
      invariant forall k | 0 <= k < i :: !Fails(entries[k])
      invariant result == audioFiles + WalkEntries(pathToSearch, entries[..i], recurse)
    {
      WalkEntriesPrefix(pathToSearch, entries, i, recurse);
      var file := entries[i];
      if !file.reachable {
        return;
      }
      var filePath := Join(pathToSearch, file.name);
      if !file.metadataReadable {
        return;
      }
      ghost var before := result;
      ghost var visited := Visit(pathToSearch, file, recurse);
      if file.node.Dir? && recurse {
        result := AppendAudioFiles(result, filePath, file.node, recurse);
      } else if file.node.File? && KeepFile(filePath) {
        result := result + [filePath];
      } else {
        assert result == before + [];
      }
      assert result == before + visited;
      AppendAssociative(audioFiles, WalkEntries(pathToSearch, entries[..i], recurse), visited);
      i := i + 1;
    }
    assert entries[..i] == entries;
  }

  /** Extending the walked prefix of a listing by one entry, and what a
      failing entry does to the rest. */
  lemma {:induction false} WalkEntriesPrefix(dir: Path, entries: seq<Entry>, i: nat, recurse: bool)
    requires i < |entries|
    requires forall k | 0 <= k < i :: !Fails(entries[k])
    ensures WalkEntries(dir, entries[..i + 1], recurse) ==
      WalkEntries(dir, entries[..i], recurse) + (if Fails(entries[i]) then [] else Visit(dir, entries[i], recurse))
    ensures Fails(entries[i]) ==> WalkEntries(dir, entries, recurse) == WalkEntries(dir, entries[..i], recurse)
  {
    if i > 0 {
      WalkEntriesPrefix(dir, entries[1..], i - 1, recurse);
      assert entries[..i + 1][1..] == entries[1..][..i];
      assert entries[..i][1..] == entries[1..][..i - 1];
      var head := Visit(dir, entries[0], recurse);
      var last := if Fails(entries[i]) then [] else Visit(dir, entries[i], recurse);
      AppendAssociative(head, WalkEntries(dir, entries[1..][..i - 1], recurse), last);
    } else {
      assert entries[..1][1..] == [];
    }
  }

  /** An unreachable entry, or one whose metadata cannot be read, abandons
      every later sibling: the listing yields what the entries before it
      yield, whatever follows. */
  lemma WalkStopsAtFailure(dir: Path, entries: seq<Entry>, i: nat, recurse: bool)
    requires i < |entries| && Fails(entries[i])
    ensures Walk(dir, Dir(true, entries), recurse) == Walk(dir, Dir(true, entries[..i]), recurse)
  {
    var j :| 0 <= j <= i && Fails(entries[j]) && forall k | 0 <= k < j :: !Fails(entries[k]) by {
      FirstFailure(entries, i);
    }
    WalkEntriesPrefix(dir, entries, j, recurse);
    if j < i {
      WalkEntriesPrefix(dir, entries[..i], j, recurse);
      assert entries[..i][..j] == entries[..j];
    }
  }

  lemma {:induction false} FirstFailure(entries: seq<Entry>, i: nat)
    requires i < |entries| && Fails(entries[i])
    ensures exists j | 0 <= j <= i :: Fails(entries[j]) && forall k | 0 <= k < j :: !Fails(entries[k])
  {
    if i > 0 && exists k | 0 <= k < i :: Fails(entries[k]) {
      var k :| 0 <= k < i && Fails(entries[k]);
      FirstFailure(entries, k);
    }
  }

  /** `rel` names, entry by entry from `node`, a regular file in the tree. */
  ghost predicate FileAt(node: Node, rel: Path)
    decreases node
  {
    node.Dir? && exists k | 0 <= k < |node.entries| :: LeadsTo(node.entries[k], rel)
  }

  ghost predicate LeadsTo(entry: Entry, rel: Path)
    decreases entry
  {
    && |rel| > 0
    && rel[0] == Normal(entry.name)
    && (if |rel| == 1 then entry.node.File? else FileAt(entry.node, rel[1..]))
  }

  predicate Under(dir: Path, p: Path) {
    |p| > |dir| && p[..|dir|] == dir
  }

  /** Every path the walk yields lies strictly below `dir`, names a regular
      file in the tree, and is accepted by the classifier; without
      recursion it is an immediate child of `dir`. */
  lemma {:induction false} WalkSound(dir: Path, node: Node, recurse: bool, p: Path)
    requires p in Walk(dir, node, recurse)
    ensures Under(dir, p) && FileAt(node, p[|dir|..]) && KeepFile(p)
    ensures AllNormal(p[|dir|..])
    ensures !recurse ==> |p| == |dir| + 1
    decreases node
  {
    WalkEntriesSound(dir, node.entries, recurse, p);
  }

  lemma {:induction false} WalkEntriesSound(dir: Path, entries: seq<Entry>, recurse: bool, p: Path)
    requires p in WalkEntries(dir, entries, recurse)
    ensures Under(dir, p) && KeepFile(p)
    ensures exists k | 0 <= k < |entries| :: LeadsTo(entries[k], p[|dir|..])
    ensures AllNormal(p[|dir|..])
    ensures !recurse ==> |p| == |dir| + 1
    decreases entries
  {
    var entry := entries[0];
    var path := Join(dir, entry.name);
    if p in Visit(dir, entry, recurse) {
      if entry.node.Dir? && recurse {
        WalkSound(path, entry.node, recurse, p);
        assert p[..|dir|] == p[..|path|][..|dir|];
        assert p[|dir|..] == [Normal(entry.name)] + p[|path|..] by {
          assert p[|dir|..][1..] == p[|path|..];
          assert p[|dir|] == p[..|path|][|dir|];
        }
        assert p[|dir|..][1..] == p[|path|..];
        assert LeadsTo(entries[0], p[|dir|..]);
      } else {
        assert p == path;
        assert p[|dir|..] == [Normal(entry.name)];
        assert LeadsTo(entries[0], p[|dir|..]);
      }
    } else {
      WalkEntriesSound(dir, entries[1..], recurse, p);
      var k :| 0 <= k < |entries[1..]| && LeadsTo(entries[1..][k], p[|dir|..]);
      assert entries[k + 1] == entries[1..][k];
    }
  }

  /** Every directory can be listed and every entry and its metadata read. */
  ghost predicate Accessible(node: Node)
    decreases node
  {
    node.Dir? ==> node.listable && forall k | 0 <= k < |node.entries| :: EntryAccessible(node.entries[k])
  }

  ghost predicate EntryAccessible(entry: Entry)
    decreases entry
  {
    !Fails(entry) && Accessible(entry.node)
  }

  /** In a tree without read failures, a recursive walk finds every regular
      file the classifier accepts. */
  lemma {:induction false} WalkComplete(dir: Path, node: Node, rel: Path)
    requires Accessible(node) && FileAt(node, rel) && KeepFile(dir + rel)
    ensures dir + rel in Walk(dir, node, true)
    decreases node
  {
    var k :| 0 <= k < |node.entries| && LeadsTo(node.entries[k], rel);
    WalkEntriesComplete(dir, node.entries, k, rel);
  }

  lemma {:induction false} WalkEntriesComplete(dir: Path, entries: seq<Entry>, k: nat, rel: Path)
    requires forall j | 0 <= j < |entries| :: EntryAccessible(entries[j])
    requires k < |entries| && LeadsTo(entries[k], rel) && KeepFile(dir + rel)
    ensures dir + rel in WalkEntries(dir, entries, true)
    decreases entries
  {
    var entry := entries[0];
    if k == 0 {
      var path := Join(dir, entry.name);
      if |rel| == 1 {
        assert dir + rel == path;
      } else {
        assert path + rel[1..] == dir + rel by {
          assert rel == [rel[0]] + rel[1..];
        }
        WalkComplete(path, entry.node, rel[1..]);
      }
    } else {
      assert entries[1..][k - 1] == entries[k];
      WalkEntriesComplete(dir, entries[1..], k - 1, rel);
    }
  }

  /** Sibling entries have distinct names, all the way down. */
  ghost predicate DistinctNames(node: Node)
    decreases node
  {
    node.Dir? ==>
      && (forall i, j | 0 <= i < j < |node.entries| :: node.entries[i].name != node.entries[j].name)
      && (forall k | 0 <= k < |node.entries| :: EntryDistinctNames(node.entries[k]))
  }

  ghost predicate EntryDistinctNames(entry: Entry)
    decreases entry
  {
    DistinctNames(entry.node)
  }

  predicate NoDuplicates(s: seq<Path>) {
    forall i, j | 0 <= i < j < |s| :: s[i] != s[j]
  }

  /** In a tree whose sibling names are distinct, the walk yields no path twice. */
  lemma {:induction false} WalkNoDuplicates(dir: Path, node: Node, recurse: bool)
    requires DistinctNames(node)
    ensures NoDuplicates(Walk(dir, node, recurse))
    decreases node
  {
    if node.Dir? && node.listable {
      WalkEntriesNoDuplicates(dir, node.entries, recurse);
    }
  }

  lemma {:induction false} WalkEntriesNoDuplicates(dir: Path, entries: seq<Entry>, recurse: bool)
    requires forall i, j | 0 <= i < j < |entries| :: entries[i].name != entries[j].name
    requires forall k | 0 <= k < |entries| :: EntryDistinctNames(entries[k])
    ensures NoDuplicates(WalkEntries(dir, entries, recurse))
    decreases entries
  {
    if entries != [] && !Fails(entries[0]) {
      var entry := entries[0];
      var head := Visit(dir, entry, recurse);
      var rest := WalkEntries(dir, entries[1..], recurse);
      assert NoDuplicates(head) by {
        if entry.node.Dir? && recurse {
          WalkNoDuplicates(Join(dir, entry.name), entry.node, recurse);
        }
      }
      WalkEntriesNoDuplicates(dir, entries[1..], recurse);
      forall p | p in head ensures p !in rest {
        VisitFirstName(dir, entry, recurse, p);
        if p in rest {
          WalkEntriesSound(dir, entries[1..], recurse, p);
        }
      }
      NoDuplicatesAppend(head, rest);
    }
  }

  /** Whatever visiting an entry yields lies below that entry's name. */
  lemma VisitFirstName(dir: Path, entry: Entry, recurse: bool, p: Path)
    requires p in Visit(dir, entry, recurse)
    ensures |p| > |dir| && p[|dir|] == Normal(entry.name)
  {
    var path := Join(dir, entry.name);
    if entry.node.Dir? && recurse {
      WalkSound(path, entry.node, recurse, p);
      assert p[|dir|] == p[..|path|][|dir|];
    }
  }

  lemma NoDuplicatesAppend(a: seq<Path>, b: seq<Path>)
    requires NoDuplicates(a) && NoDuplicates(b)
    requires forall p | p in a :: p !in b
    ensures NoDuplicates(a + b)
  {
    var all := a + b;
    forall i, j | 0 <= i < j < |all| ensures all[i] != all[j] {
      if i >= |a| {
        assert all[i] == b[i - |a|] && all[j] == b[j - |a|];
      } else if j >= |a| {
        assert all[i] in a && all[j] == b[j - |a|];
      }
    }
  }
}
