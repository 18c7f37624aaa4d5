/** The clean-up script (remove.type.json.py): it walks a directory tree and deletes every
    file whose name ends with ".type.json", reporting each removal or failure and going
    on. The walk is a parameter (each directory's path and the names of the files in it,
    in the order `os.walk` gives them); the file system is the set of existing file paths,
    and `denied` holds the paths whose removal the system refuses. */
module RemoveTypeJson {
  import opened Wrappers
  import opened Text
  import opened Sorting
  import BuildGen

  const Suffix: string := ".type.json"

  /** The directory the script starts from. */
  const Root: string := "./"

  /** One directory of the walk: its path and the names of the files in it. */
  datatype WalkDir = WalkDir(root: string, names: seq<string>)

  /** What is printed for a file: removed, or an error while removing it. */
  datatype Report = Removed(path: string) | RemoveFailed(path: string)

  /** The path a listed name gives under `root`, when the name ends with the suffix. */
  function TargetOf(root: string): string -> Option<string> {
    name => if EndsWith(name, Suffix) then Some(PathJoin(root, name)) else None
  }

  /** The paths under `root` of the names that end with the suffix, in listing order. */
  function TargetsIn(root: string, names: seq<string>): (ps: seq<string>)
    ensures |ps| <= |names|
  {
    Chosen(names, TargetOf(root))
  }

  /** Each walked directory's paths to try. */
  function DirTargets(walk: seq<WalkDir>): (dts: seq<seq<string>>)
    ensures |dts| == |walk|
    ensures forall i :: 0 <= i < |walk| ==> dts[i] == TargetsIn(walk[i].root, walk[i].names)
  {
    seq(|walk|, i requires 0 <= i < |walk| => TargetsIn(walk[i].root, walk[i].names))
  }

  /** The paths the script tries to remove, in walk order. */
  function Targets(walk: seq<WalkDir>): seq<string> {
    Flatten(DirTargets(walk))
  }

  /** A path is tried in a directory exactly when it lists a name ending with the suffix
      whose joined path it is. */
  lemma TargetsInFound(root: string, names: seq<string>, p: string)
    ensures p in TargetsIn(root, names) <==>
              exists j :: 0 <= j < |names| && EndsWith(names[j], Suffix) && p == PathJoin(root, names[j])
  {
    ChosenMembers(names, TargetOf(root), p);
    assert forall j :: 0 <= j < |names| ==>
             (TargetOf(root)(names[j]) == Some(p) <==> EndsWith(names[j], Suffix) && p == PathJoin(root, names[j]));
  }

  /** A path is tried exactly when some walked directory gives it. */
  lemma TargetsFound(walk: seq<WalkDir>, p: string)
    ensures p in Targets(walk) <==>
              exists i :: 0 <= i < |walk| && p in TargetsIn(walk[i].root, walk[i].names)
  {
    FlattenMembers(DirTargets(walk), p);
  }

  /** One more listed name adds its path when it ends with the suffix. */
  lemma TargetsInPush(root: string, names: seq<string>, j: nat)
    requires j < |names|
    ensures TargetsIn(root, names[..j + 1]) ==
              TargetsIn(root, names[..j]) + (if EndsWith(names[j], Suffix) then [PathJoin(root, names[j])] else [])
  {
    assert names[..j + 1][..j] == names[..j];
  }

  /** One more walked directory adds its paths. */
  lemma TargetsPush(walk: seq<WalkDir>, i: nat)
    requires i < |walk|
    ensures Targets(walk[..i + 1]) == Targets(walk[..i]) + TargetsIn(walk[i].root, walk[i].names)
  {
    assert DirTargets(walk[..i + 1])[..i] == DirTargets(walk[..i]);
    FlattenSnoc(DirTargets(walk[..i + 1]), i);
  }

  /** The existing files and the reports printed so far. */
  type State = (set<string>, seq<Report>)

  /** One `os.remove`: an existing file the system lets go is deleted and reported;
      anything else leaves the files as they are and reports an error. */
  function Step(st: State, denied: set<string>, p: string): State {
    if p in st.0 && p !in denied then (st.0 - {p}, st.1 + [Removed(p)])
    else (st.0, st.1 + [RemoveFailed(p)])
  }

  /** The removals of `ps`, one after another, from the state `st`. */
  function RemoveAll(st: State, denied: set<string>, ps: seq<string>): State {
    if ps == [] then st else Step(RemoveAll(st, denied, ps[..|ps| - 1]), denied, Last(ps))
  }

  lemma RemoveAllPush(st: State, denied: set<string>, ps: seq<string>, p: string)
    ensures RemoveAll(st, denied, ps + [p]) == Step(RemoveAll(st, denied, ps), denied, p)
  {
    assert (ps + [p])[..|ps|] == ps;
  }

  /** Afterwards exactly the tried paths the system lets go are gone; the failures stop
      nothing. */
  lemma {:induction false} RemoveAllFiles(st: State, denied: set<string>, ps: seq<string>)
    ensures RemoveAll(st, denied, ps).0 == st.0 - (set p | p in ps && p !in denied)
    decreases |ps|
  {
    if ps != [] {
      var front := ps[..|ps| - 1];
      RemoveAllFiles(st, denied, front);
      assert ps == front + [Last(ps)];
    }
  }

  /** One report per tried path, in order, and the old reports kept in front: a path is
      reported removed exactly when it existed, the system lets it go, and it was not
      already tried. */
  lemma RemoveAllLog(st: State, denied: set<string>, ps: seq<string>)
    ensures |RemoveAll(st, denied, ps).1| == |st.1| + |ps|
    ensures RemoveAll(st, denied, ps).1[..|st.1|] == st.1
    ensures forall i :: 0 <= i < |ps| ==>
              RemoveAll(st, denied, ps).1[|st.1| + i] ==
                if ps[i] in st.0 && ps[i] !in denied && ps[i] !in ps[..i] then Removed(ps[i]) else RemoveFailed(ps[i])
  {
    LogMatchesAll(st, denied, ps);
  }

  /** The reports `log` are the old ones followed by one per path of `ps`, as stated above. */
  predicate LogMatches(st: State, denied: set<string>, ps: seq<string>, log: seq<Report>) {
    |log| == |st.1| + |ps| && log[..|st.1|] == st.1 &&
    forall i :: 0 <= i < |ps| ==>
      log[|st.1| + i] ==
        if ps[i] in st.0 && ps[i] !in denied && ps[i] !in ps[..i] then Removed(ps[i]) else RemoveFailed(ps[i])
  }

  lemma {:induction false} LogMatchesAll(st: State, denied: set<string>, ps: seq<string>)
    ensures LogMatches(st, denied, ps, RemoveAll(st, denied, ps).1)
    decreases |ps|
  {
    if ps != [] {
      var front := ps[..|ps| - 1];
      LogMatchesAll(st, denied, front);
      RemoveAllFiles(st, denied, front);
      assert ps == front + [Last(ps)];
      LogMatchesSnoc(st, denied, front, Last(ps), RemoveAll(st, denied, front));
    }
  }

  lemma LogMatchesSnoc(st: State, denied: set<string>, front: seq<string>, p: string, cur: State)
    requires LogMatches(st, denied, front, cur.1)
    requires cur.0 == st.0 - (set q | q in front && q !in denied)
    ensures LogMatches(st, denied, front + [p], Step(cur, denied, p).1)
  {
    var ps := front + [p];
    var log := Step(cur, denied, p).1;
    var n := |front|;
    assert log == cur.1 + [if p in cur.0 && p !in denied then Removed(p) else RemoveFailed(p)];
    assert ps[..n] == front;
    forall i | 0 <= i < n ensures ps[..i] == front[..i] && ps[i] == front[i] && log[|st.1| + i] == cur.1[|st.1| + i] {
    }
  }

  /** A removed file is one the metadata generator would have read: a name ending with
      the suffix contains it. */
  lemma RemovedAreMetadata(stem: string)
    ensures EndsWith(stem + Suffix, Suffix) && BuildGen.IsMetadataName(stem + Suffix)
  {
    var name := stem + Suffix;
    assert name[|name| - |Suffix|..] == Suffix;
    ContainsAt(stem, Suffix, []);
    assert stem + Suffix + [] == name;
  }

  /** The converse fails: the generator reads any name containing ".type.json", but the
      script only removes names ending with it, so a "….type.json.bak" file stays. */
  lemma BackupsStay(stem: string)
    ensures BuildGen.IsMetadataName(stem + Suffix + ".bak")
    ensures !EndsWith(stem + Suffix + ".bak", Suffix)
  {
    var name := stem + Suffix + ".bak";
    ContainsAt(stem, Suffix, ".bak");
    assert name[|name| - 1] == 'k';
  }

  /** The file system the script works on, and what it has printed. */
  class FileTree {
    var files: set<string>
    var log: seq<Report>

    constructor(existing: set<string>)
      ensures files == existing && log == []
    {
      files := existing;
      log := [];
    }

    /** `os.remove` and its report. */
    method Remove(path: string, denied: set<string>)
      modifies this
      ensures (files, log) == Step((old(files), old(log)), denied, path)
    {
      if path in files && path !in denied {
        files := files - {path};
        log := log + [Removed(path)];
      } else {
        log := log + [RemoveFailed(path)];
      }
    }

    /** The inner loop over one directory's files. */
    method RemoveInDir(d: WalkDir, denied: set<string>, ghost st: State, ghost before: seq<string>)
      modifies this
      requires (files, log) == RemoveAll(st, denied, before)
      ensures (files, log) == RemoveAll(st, denied, before + TargetsIn(d.root, d.names))
    {
      assert before + TargetsIn(d.root, d.names[..0]) == before;
      for j := 0 to |d.names|
        invariant (files, log) == RemoveAll(st, denied, before + TargetsIn(d.root, d.names[..j]))
      {
        var file := d.names[j];
        TargetsInPush(d.root, d.names, j);
        ghost var done := before + TargetsIn(d.root, d.names[..j]);
        if EndsWith(file, Suffix) {
          var filePath := PathJoin(d.root, file);
          RemoveAllPush(st, denied, done, filePath);
          assert before + TargetsIn(d.root, d.names[..j + 1]) == done + [filePath];
          Remove(filePath, denied);
        } else {
          assert before + TargetsIn(d.root, d.names[..j + 1]) == done;
        }
      }
      assert d.names[..|d.names|] == d.names;
    }

    /** `remove_type_json_files`: every walked file whose name ends with the suffix is
        removed in walk order, and a failure is reported and passed over. */
    method RemoveTypeJsonFiles(walk: seq<WalkDir>, denied: set<string>)
      modifies this
      ensures (files, log) == RemoveAll((old(files), old(log)), denied, Targets(walk))
    {
      ghost var st := (files, log);
      assert Targets(walk[..0]) == [];
      for i := 0 to |walk|
        invariant (files, log) == RemoveAll(st, denied, Targets(walk[..i]))
      {
        TargetsPush(walk, i);
        RemoveInDir(walk[i], denied, st, Targets(walk[..i]));
      }
      assert walk[..|walk|] == walk;
    }
  }

  /** The script: one walk from "./". */
  method RemoveFromRoot(tree: FileTree, walkFrom: string -> seq<WalkDir>, denied: set<string>)
    modifies tree
    ensures (tree.files, tree.log) == RemoveAll((old(tree.files), old(tree.log)), denied, Targets(walkFrom(Root)))
  {
    tree.RemoveTypeJsonFiles(walkFrom(Root), denied);
  }
}
