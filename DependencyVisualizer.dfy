/** git_dependency_visualizer.py: list the loose objects, keep the commits
    whose `tree` value contains a target string, map each kept commit to its
    parents and print the result as a Graphviz `digraph`. */
module DependencyVisualizer {
  import opened PyText
  import opened Dicts
  import opened ObjectStore

  // ---------------------------------------------------------------------------
  // parse_commit_data: header lines "<key> <value>" up to the first empty line

  type Fields = map<string, string>

  /** Line `line` splits at its first space into key `k` and some value. */
  predicate HasKey(line: string, k: string) {
    var kv := SplitOnce(line); kv.Some? && kv.value.0 == k
  }

  /** The loop of parse_commit_data from dict `acc` on: stop at an empty line,
      fail with ValueError on a line without a space, otherwise overwrite. */
  function CollectFields(acc: Fields, lines: seq<string>): Result<Fields>
    decreases |lines|
  {
    if lines == [] || lines[0] == [] then Ok(acc)
    else
      match SplitOnce(lines[0])
      case None => Err(ValueError)
      case Some(kv) => CollectFields(acc[kv.0 := kv.1], lines[1..])
  }

  /** What parse_commit_data returns for a decoded payload. */
  function Metadata(text: string): Result<Fields> {
    CollectFields(map[], SplitLines(text))
  }

  method ParseCommitData(commitData: string) returns (r: Result<Fields>)
    ensures r == Metadata(commitData)
  {
    var lines := SplitLines(commitData);
    var metadata: Fields := map[];
    var i := 0;
    while i < |lines|
      invariant 0 <= i <= |lines|
      invariant CollectFields(map[], lines) == CollectFields(metadata, lines[i..])
    {
      if lines[i] == "" {
        break;
      }
      var kv := SplitOnce(lines[i]);
      if kv.None? {
        return Err(ValueError);
      }
      assert lines[i..][1..] == lines[i + 1..];
      metadata := metadata[kv.value.0 := kv.value.1];
      i := i + 1;
    }
    return Ok(metadata);
  }

  /** Nothing after the first empty line affects the result. */
  lemma {:induction false} CollectFieldsStopsAtBlank(acc: Fields, head: seq<string>, rest: seq<string>)
    requires forall i :: 0 <= i < |head| ==> head[i] != []
    ensures CollectFields(acc, head + [[]] + rest) == CollectFields(acc, head)
    decreases |head|
  {
    var lines := head + [[]] + rest;
    if head != [] {
      assert lines[0] == head[0];
      assert lines[1..] == head[1..] + [[]] + rest;
      match SplitOnce(head[0])
      case None =>
      case Some(kv) => CollectFieldsStopsAtBlank(acc[kv.0 := kv.1], head[1..], rest);
    }
  }

  /** The parse fails exactly when some header line has no space. */
  lemma {:induction false} CollectFieldsFails(acc: Fields, lines: seq<string>)
    ensures CollectFields(acc, lines).Err? <==>
      exists i :: 0 <= i < FirstBlank(lines) && ' ' !in lines[i]
    ensures CollectFields(acc, lines).Err? ==> CollectFields(acc, lines).error == ValueError
    decreases |lines|
  {
    if lines != [] && lines[0] != [] {
      assert FirstBlank(lines) == 1 + FirstBlank(lines[1..]);
      match SplitOnce(lines[0])
      case None =>
        assert ' ' !in lines[0];
      case Some(kv) =>
        CollectFieldsFails(acc[kv.0 := kv.1], lines[1..]);
        if exists i :: 0 <= i < FirstBlank(lines) && ' ' !in lines[i] {
          var i :| 0 <= i < FirstBlank(lines) && ' ' !in lines[i];
          assert i != 0;
          assert lines[1..][i - 1] == lines[i];
        }
        if exists i :: 0 <= i < FirstBlank(lines[1..]) && ' ' !in lines[1..][i] {
          var i :| 0 <= i < FirstBlank(lines[1..]) && ' ' !in lines[1..][i];
          assert lines[i + 1] == lines[1..][i];
        }
    }
  }

  /** A repeated key keeps the value of its last header line. */
  lemma {:induction false} CollectFieldsLastWins(acc: Fields, lines: seq<string>, k: string, j: nat)
    requires CollectFields(acc, lines).Ok?
    requires j < FirstBlank(lines) && HasKey(lines[j], k)
    requires forall i :: j < i < FirstBlank(lines) ==> !HasKey(lines[i], k)
    ensures var m := CollectFields(acc, lines).value; k in m && m[k] == SplitOnce(lines[j]).value.1
    decreases |lines|
  {
    var kv := SplitOnce(lines[0]).value;
    assert FirstBlank(lines) == 1 + FirstBlank(lines[1..]);
    if j == 0 {
      CollectFieldsKeepsAbsent(acc[kv.0 := kv.1], lines[1..], k);
    } else {
      forall i | j - 1 < i < FirstBlank(lines[1..]) ensures !HasKey(lines[1..][i], k) {
        assert lines[1..][i] == lines[i + 1];
      }
      CollectFieldsLastWins(acc[kv.0 := kv.1], lines[1..], k, j - 1);
    }
  }

  /** A key on no header line keeps whatever the starting dict gave it. */
  lemma {:induction false} CollectFieldsKeepsAbsent(acc: Fields, lines: seq<string>, k: string)
    requires CollectFields(acc, lines).Ok?
    requires forall i :: 0 <= i < FirstBlank(lines) ==> !HasKey(lines[i], k)
    ensures var m := CollectFields(acc, lines).value; (k in m <==> k in acc) && (k in acc ==> m[k] == acc[k])
    decreases |lines|
  {
    if lines != [] && lines[0] != [] {
      var kv := SplitOnce(lines[0]).value;
      assert FirstBlank(lines) == 1 + FirstBlank(lines[1..]);
      assert !HasKey(lines[0], k);
      forall i | 0 <= i < FirstBlank(lines[1..]) ensures !HasKey(lines[1..][i], k) {
        assert lines[1..][i] == lines[i + 1];
      }
      CollectFieldsKeepsAbsent(acc[kv.0 := kv.1], lines[1..], k);
    }
  }

  /** "<key> <value>" splits into exactly that key and value when the key has no space. */
  lemma SplitOnceField(key: string, value: string)
    requires ' ' !in key
    ensures SplitOnce(key + " " + value) == Some((key, value))
  {
    var line := key + " " + value;
    IndexOfAfter(key, ' ', value);
    assert line[..|key|] == key;
    assert line[|key| + 1..] == value;
  }

  /** For a merge commit only the last `parent` line survives. */
  lemma MergeKeepsLastParent(tree: string, first: string, second: string)
    ensures CollectFields(map[], ["tree " + tree, "parent " + first, "parent " + second])
         == Ok(map["tree" := tree, "parent" := second])
  {
    var lines := ["tree " + tree, "parent " + first, "parent " + second];
    assert "tree " + tree == "tree" + " " + tree;
    assert "parent " + first == "parent" + " " + first;
    assert "parent " + second == "parent" + " " + second;
    SplitOnceField("tree", tree);
    SplitOnceField("parent", first);
    SplitOnceField("parent", second);
    assert lines[1..] == ["parent " + first, "parent " + second];
    assert lines[1..][1..] == ["parent " + second];
    assert lines[1..][1..][1..] == [];
    var m := map["tree" := tree]["parent" := first]["parent" := second];
    assert m == map["tree" := tree, "parent" := second];
    assert CollectFields(map["tree" := tree]["parent" := first], lines[1..][1..]) == Ok(m);
    assert CollectFields(map["tree" := tree], lines[1..]) == Ok(m);
  }

  // ---------------------------------------------------------------------------
  // list_git_objects: every file name of 38 characters, prefixed by its directory name

  /** The hashes list_git_objects collects from `(root, file)` pairs in walk order. */
  function ObjectHashes(walk: seq<(string, string)>): seq<string>
  {
    if walk == [] then []
    else
      (if |walk[0].1| == 38 then [Basename(walk[0].0) + walk[0].1] else []) + ObjectHashes(walk[1..])
  }

  method ListGitObjects(walk: seq<(string, string)>) returns (objectHashes: seq<string>)
    ensures objectHashes == ObjectHashes(walk)
  {
    objectHashes := [];
    var i := 0;
    while i < |walk|
      invariant 0 <= i <= |walk|
      invariant ObjectHashes(walk) == objectHashes + ObjectHashes(walk[i..])
    {
      var (root, file) := walk[i];
      assert walk[i..][1..] == walk[i + 1..];
      if |file| == 38 {
        objectHashes := objectHashes + [Basename(root) + file];
      }
      i := i + 1;
    }
    assert walk[i..] == [];
  }

  /** A hash is listed exactly when some 38-character file name yields it. */
  lemma {:induction false} ObjectHashesMembership(walk: seq<(string, string)>, h: string)
    ensures h in ObjectHashes(walk) <==>
      exists i :: 0 <= i < |walk| && |walk[i].1| == 38 && h == Basename(walk[i].0) + walk[i].1
    decreases |walk|
  {
    if walk != [] {
      ObjectHashesMembership(walk[1..], h);
      if exists i :: 0 <= i < |walk| && |walk[i].1| == 38 && h == Basename(walk[i].0) + walk[i].1 {
        var i :| 0 <= i < |walk| && |walk[i].1| == 38 && h == Basename(walk[i].0) + walk[i].1;
        if i > 0 {
          assert walk[1..][i - 1] == walk[i];
        }
      }
      if exists i :: 0 <= i < |walk[1..]| && |walk[1..][i].1| == 38 && h == Basename(walk[1..][i].0) + walk[1..][i].1 {
        var i :| 0 <= i < |walk[1..]| && |walk[1..][i].1| == 38 && h == Basename(walk[1..][i].0) + walk[1..][i].1;
        assert walk[i + 1] == walk[1..][i];
      }
    }
  }

  /** Listing follows walk order: the hashes of two walks in sequence are concatenated. */
  lemma {:induction false} ObjectHashesAppend(a: seq<(string, string)>, b: seq<(string, string)>)
    ensures ObjectHashes(a + b) == ObjectHashes(a) + ObjectHashes(b)
    decreases |a|
  {
    if a == [] {
      assert a + b == b;
    } else {
      assert (a + b)[1..] == a[1..] + b;
      ObjectHashesAppend(a[1..], b);
    }
  }

  /** Under two-character directory names every listed hash has 40 characters. */
  lemma {:induction false} ObjectHashesLength(walk: seq<(string, string)>)
    requires forall i :: 0 <= i < |walk| ==> |Basename(walk[i].0)| == 2
    ensures forall h :: h in ObjectHashes(walk) ==> |h| == 40
    decreases |walk|
  {
    if walk != [] {
      ObjectHashesLength(walk[1..]);
    }
  }

  // ---------------------------------------------------------------------------
  // find_commits: the commits whose tree value contains the target as a substring

  /** The tree value a parsed commit offers to the filter: `parsed_data.get("tree", "")`. */
  function TreeValue(m: Fields): string {
    if "tree" in m then m["tree"] else ""
  }

  /** One iteration of find_commits: whether the object is kept. A missing
      object and a malformed header line raise; a payload that is not UTF-8 is
      skipped, as the only caught exception is UnicodeDecodeError. */
  function Examine(store: Store, h: string, target: string): Result<bool>
  {
    if h !in store then Err(FileNotFoundError)
    else
      var o := store[h];
      if !("commit" <= o.header) then Ok(false)
      else
        match o.payload
        case NotUtf8 => Ok(false)
        case Utf8(text) =>
          match Metadata(text)
          case Err(e) => Err(e)
          case Ok(m) => Ok(IsSubstring(target, TreeValue(m)))
  }

  /** The result of the loop of find_commits over `objects`; the first exception ends it. */
  function Matching(store: Store, objects: seq<string>, target: string): Result<seq<string>>
    decreases |objects|
  {
    if objects == [] then Ok([])
    else
      match Examine(store, objects[0], target)
      case Err(e) => Err(e)
      case Ok(keep) =>
        match Matching(store, objects[1..], target)
        case Err(e) => Err(e)
        case Ok(rest) => Ok((if keep then [objects[0]] else []) + rest)
  }

  /** `kept` followed by the outcome of the rest of the scan. */
  function Prefixed(kept: seq<string>, r: Result<seq<string>>): Result<seq<string>> {
    match r
    case Ok(rest) => Ok(kept + rest)
    case Err(e) => Err(e)
  }

  /** One iteration of find_commits: read the object, and for a commit decode
      the payload, parse it and test its tree value. */
  method ExamineObject(store: Store, objHash: string, targetFile: string) returns (r: Result<bool>)
    ensures r == Examine(store, objHash, targetFile)
  {
    if objHash !in store {
      return Err(FileNotFoundError);
    }
    var obj := store[objHash];
    if !("commit" <= obj.header) {
      return Ok(false);
    }
    match obj.payload {
      case NotUtf8 =>
        return Ok(false);
      case Utf8(commitData) =>
        var parsed := ParseCommitData(commitData);
        if parsed.Err? {
          return Err(parsed.error);
        }
        return Ok(IsSubstring(targetFile, TreeValue(parsed.value)));
    }
  }

  method FindCommits(store: Store, walk: seq<(string, string)>, targetFile: string) returns (r: Result<seq<string>>)
    ensures r == Matching(store, ObjectHashes(walk), targetFile)
  {
    var commits: seq<string> := [];
    var objects := ListGitObjects(walk);
    var i := 0;
    ScanStart(store, objects, targetFile);
    while i < |objects|
      invariant 0 <= i <= |objects|
      invariant Matching(store, objects, targetFile) == Prefixed(commits, Matching(store, objects[i..], targetFile))
    {
      var objHash := objects[i];
      var keep := ExamineObject(store, objHash, targetFile);
      ScanStep(store, objects, i, targetFile, commits);
      if keep.Err? {
        return Err(keep.error);
      }
      commits := commits + if keep.value then [objHash] else [];
      i := i + 1;
    }
    ScanDone(store, objects, targetFile, commits);
    r := Ok(commits);
  }

  /** Before the scan nothing is kept and every object is still ahead. */
  lemma ScanStart(store: Store, objects: seq<string>, target: string)
    ensures Matching(store, objects, target) == Prefixed([], Matching(store, objects[0..], target))
  {
    assert objects[0..] == objects;
    PrefixedNothing(Matching(store, objects, target));
  }

  /** After the last object the kept list is the whole result. */
  lemma ScanDone(store: Store, objects: seq<string>, target: string, kept: seq<string>)
    requires Matching(store, objects, target) == Prefixed(kept, Matching(store, objects[|objects|..], target))
    ensures Matching(store, objects, target) == Ok(kept)
  {
    assert objects[|objects|..] == [];
    assert kept + [] == kept;
  }

  /** One step of the scan: the object at `i` either raises, ending it, or
      contributes itself or nothing ahead of the rest. */
  lemma MatchingStep(store: Store, objects: seq<string>, i: nat, target: string)
    requires i < |objects|
    ensures Matching(store, objects[i..], target) ==
      match Examine(store, objects[i], target)
      case Err(e) => Err(e)
      case Ok(keep) => Prefixed(if keep then [objects[i]] else [], Matching(store, objects[i + 1..], target))
  {
    assert objects[i..][0] == objects[i] && objects[i..][1..] == objects[i + 1..];
  }

  /** The loop invariant of find_commits carried across one object. */
  lemma ScanStep(store: Store, objects: seq<string>, i: nat, target: string, kept: seq<string>)
    requires i < |objects|
    requires Matching(store, objects, target) == Prefixed(kept, Matching(store, objects[i..], target))
    ensures Examine(store, objects[i], target).Err? ==>
      Matching(store, objects, target) == Err(Examine(store, objects[i], target).error)
    ensures Examine(store, objects[i], target).Ok? ==>
      Matching(store, objects, target) ==
        Prefixed(kept + if Examine(store, objects[i], target).value then [objects[i]] else [],
                 Matching(store, objects[i + 1..], target))
  {
    MatchingStep(store, objects, i, target);
    match Examine(store, objects[i], target)
    case Err(_) =>
    case Ok(keep) =>
      PrefixedStep(kept, if keep then [objects[i]] else [], Matching(store, objects[i + 1..], target));
  }

  lemma PrefixedNothing(r: Result<seq<string>>)
    ensures Prefixed([], r) == r
  {
    if r.Ok? {
      assert [] + r.value == r.value;
    }
  }

  lemma PrefixedStep(kept: seq<string>, more: seq<string>, r: Result<seq<string>>)
    ensures Prefixed(kept, Prefixed(more, r)) == Prefixed(kept + more, r)
  {
    if r.Ok? {
      assert kept + (more + r.value) == kept + more + r.value;
    }
  }

  /** On success the result holds exactly the listed objects that are commits
      with a UTF-8 payload whose tree value contains the target. */
  lemma {:induction false} MatchingMembership(store: Store, objects: seq<string>, target: string, h: string)
    requires Matching(store, objects, target).Ok?
    ensures h in Matching(store, objects, target).value <==> h in objects && Examine(store, h, target) == Ok(true)
    decreases |objects|
  {
    if objects != [] {
      MatchingMembership(store, objects[1..], target, h);
    }
  }

  /** The scan keeps walk order: scanning two lists in turn concatenates the results. */
  lemma {:induction false} MatchingAppend(store: Store, a: seq<string>, b: seq<string>, target: string)
    ensures Matching(store, a + b, target) ==
      match Matching(store, a, target)
      case Err(e) => Err(e)
      case Ok(ra) => Prefixed(ra, Matching(store, b, target))
    decreases |a|
  {
    if a == [] {
      assert a + b == b;
      match Matching(store, b, target)
      case Ok(rb) => assert [] + rb == rb;
      case Err(_) =>
    } else {
      assert (a + b)[1..] == a[1..] + b;
      MatchingAppend(store, a[1..], b, target);
      match Matching(store, a[1..], target)
      case Err(_) =>
      case Ok(ra) =>
        match Matching(store, b, target)
        case Err(_) =>
        case Ok(rb) =>
          var first := if Examine(store, a[0], target) == Ok(true) then [a[0]] else [];
          assert first + (ra + rb) == (first + ra) + rb;
    }
  }

  /** The scan raises exactly when some listed object raises. */
  lemma {:induction false} MatchingFails(store: Store, objects: seq<string>, target: string)
    ensures Matching(store, objects, target).Err? <==>
      exists i :: 0 <= i < |objects| && Examine(store, objects[i], target).Err?
    decreases |objects|
  {
    if objects != [] {
      MatchingFails(store, objects[1..], target);
      if exists i :: 0 <= i < |objects| && Examine(store, objects[i], target).Err? {
        var i :| 0 <= i < |objects| && Examine(store, objects[i], target).Err?;
        if i > 0 {
          assert objects[1..][i - 1] == objects[i];
        }
      }
      if exists i :: 0 <= i < |objects[1..]| && Examine(store, objects[1..][i], target).Err? {
        var i :| 0 <= i < |objects[1..]| && Examine(store, objects[1..][i], target).Err?;
        assert objects[i + 1] == objects[1..][i];
      }
    }
  }

  /** Of two commits whose payloads are the single lines "tree <t1>" and
      "tree <t2>", the scan keeps those whose tree value contains the target,
      in order: with trees "aaa111" and "bbb222" and target "aaa", only the first. */
  lemma TreeFilterPair(c1: string, c2: string, header: string, t1: string, t2: string, target: string)
    requires c1 != c2 && "commit" <= header && NoLineBreak(t1) && NoLineBreak(t2)
    ensures var store := map[c1 := Object(header, Utf8("tree " + t1)), c2 := Object(header, Utf8("tree " + t2))];
      Matching(store, [c1, c2], target)
        == Ok((if IsSubstring(target, t1) then [c1] else []) + (if IsSubstring(target, t2) then [c2] else []))
  {
    var store := map[c1 := Object(header, Utf8("tree " + t1)), c2 := Object(header, Utf8("tree " + t2))];
    TreeLineOnly(t1);
    TreeLineOnly(t2);
    MatchingPair(store, c1, c2, target);
  }

  lemma TreeLineOnly(tree: string)
    requires NoLineBreak(tree)
    ensures Metadata("tree " + tree) == Ok(map["tree" := tree])
  {
    assert "tree " + tree == "tree" + " " + tree;
    assert NoLineBreak("tree");
    OneHeaderLine("tree", tree);
  }

  lemma MatchingPair(store: Store, c1: string, c2: string, target: string)
    requires Examine(store, c1, target).Ok? && Examine(store, c2, target).Ok?
    ensures Matching(store, [c1, c2], target)
      == Ok((if Examine(store, c1, target).value then [c1] else []) + (if Examine(store, c2, target).value then [c2] else []))
  {
    assert [c1, c2][1..] == [c2];
    assert [c2][1..] == [];
    var k2 := if Examine(store, c2, target).value then [c2] else [];
    assert Matching(store, [c2], target) == Ok(k2 + []);
    assert k2 + [] == k2;
  }

  /** A target whose first character does not occur in `s` is not a substring of it. */
  lemma {:induction false} FirstCharAbsent(t: string, s: string)
    requires t != [] && t[0] !in s
    ensures !IsSubstring(t, s)
    decreases |s|
  {
    if s != [] {
      assert s[0] in s;
      assert forall c :: c in s[1..] ==> c in s;
      FirstCharAbsent(t, s[1..]);
    }
  }

  /** A payload that is one header line "<key> <value>" parses to that one field. */
  lemma OneHeaderLine(key: string, value: string)
    requires ' ' !in key && key != []
    requires NoLineBreak(key) && NoLineBreak(value)
    ensures Metadata(key + " " + value) == Ok(map[key := value])
  {
    var line := key + " " + value;
    NoLineBreakConcat(key, " ");
    NoLineBreakConcat(key + " ", value);
    assert Join([line], '\n') == line;
    SplitLinesJoin([line]);
    SplitOnceField(key, value);
    assert [line][1..] == [];
    assert CollectFields(map[][key := value], []) == Ok(map[key := value]);
  }

  // ---------------------------------------------------------------------------
  // build_dependency_graph: each commit mapped to the words of its "parent" value

  type Graph = Dict<seq<string>>

  /** `metadata.get("parent", "").split()`. */
  function ParentWords(m: Fields): seq<string> {
    Tokens(if "parent" in m then m["parent"] else "")
  }

  /** build_dependency_graph with each payload decoded as UTF-8 before parsing,
      from graph `acc` on; a missing object, an undecodable payload and a
      malformed header line raise. */
  function GraphFrom(acc: Graph, store: Store, commits: seq<string>): Result<Graph>
    decreases |commits|
  {
    if commits == [] then Ok(acc)
    else
      var h := commits[0];
      if h !in store then Err(FileNotFoundError)
      else
        match store[h].payload
        case NotUtf8 => Err(UnicodeDecodeError)
        case Utf8(text) =>
          match Metadata(text)
          case Err(e) => Err(e)
          case Ok(m) => GraphFrom(Put(acc, h, ParentWords(m)), store, commits[1..])
  }

  function DependencyGraph(store: Store, commits: seq<string>): Result<Graph> {
    GraphFrom([], store, commits)
  }

  method BuildDependencyGraph(store: Store, commits: seq<string>) returns (r: Result<Graph>)
    ensures r == DependencyGraph(store, commits)
  {
    var graph: Graph := [];
    var i := 0;
    while i < |commits|
      invariant 0 <= i <= |commits|
      invariant DependencyGraph(store, commits) == GraphFrom(graph, store, commits[i..])
    {
      var commitHash := commits[i];
      assert commits[i..][1..] == commits[i + 1..];
      if commitHash !in store {
        return Err(FileNotFoundError);
      }
      match store[commitHash].payload {
        case NotUtf8 =>
          return Err(UnicodeDecodeError);
        case Utf8(data) =>
          var metadata := ParseCommitData(data);
          if metadata.Err? {
            return Err(metadata.error);
          }
          graph := Put(graph, commitHash, ParentWords(metadata.value));
      }
      i := i + 1;
    }
    assert commits[i..] == [];
    return Ok(graph);
  }

  /** The payload of `h` parses, so `h` has a parent list. */
  predicate Parses(store: Store, h: string) {
    h in store && store[h].payload.Utf8? && Metadata(store[h].payload.text).Ok?
  }

  function ParentsIn(store: Store, h: string): seq<string>
    requires Parses(store, h)
  {
    ParentWords(Metadata(store[h].payload.text).value)
  }

  /** On success the graph's keys are distinct: one entry per commit, however
      often it is listed. */
  lemma {:induction false} GraphFromDistinct(acc: Graph, store: Store, commits: seq<string>)
    requires DistinctKeys(acc)
    requires GraphFrom(acc, store, commits).Ok?
    ensures DistinctKeys(GraphFrom(acc, store, commits).value)
    decreases |commits|
  {
    if commits != [] {
      var c := commits[0];
      var ps := ParentWords(Metadata(store[c].payload.text).value);
      PutDistinct(acc, c, ps);
      GraphFromDistinct(Put(acc, c, ps), store, commits[1..]);
    }
  }

  /** On success the keys are those of `acc` and the listed commits. */
  lemma {:induction false} GraphFromKeys(acc: Graph, store: Store, commits: seq<string>, h: string)
    requires GraphFrom(acc, store, commits).Ok?
    ensures h in Keys(GraphFrom(acc, store, commits).value) <==> h in Keys(acc) || h in commits
    decreases |commits|
  {
    if commits != [] {
      var c := commits[0];
      var ps := ParentWords(Metadata(store[c].payload.text).value);
      GraphFromKeys(Put(acc, c, ps), store, commits[1..], h);
      assert h in commits <==> h == c || h in commits[1..];
    }
  }

  /** On success each listed commit is mapped to the words of its last
      `parent` line, and every other key keeps its entry. */
  lemma {:induction false} GraphFromLookup(acc: Graph, store: Store, commits: seq<string>, h: string)
    requires GraphFrom(acc, store, commits).Ok?
    ensures h in commits ==> Parses(store, h) && Lookup(GraphFrom(acc, store, commits).value, h) == Some(ParentsIn(store, h))
    ensures h !in commits ==> Lookup(GraphFrom(acc, store, commits).value, h) == Lookup(acc, h)
    decreases |commits|
  {
    if commits != [] {
      var c := commits[0];
      var ps := ParentWords(Metadata(store[c].payload.text).value);
      PutLookup(acc, c, ps, h);
      GraphFromLookup(Put(acc, c, ps), store, commits[1..], h);
      assert h in commits <==> h == c || h in commits[1..];
    }
  }

  /** Commits that find_commits accepted always build a graph: their payloads
      decode and their header lines parse. */
  lemma {:induction false} MatchedCommitsBuild(store: Store, objects: seq<string>, target: string, acc: Graph)
    requires Matching(store, objects, target).Ok?
    ensures GraphFrom(acc, store, Matching(store, objects, target).value).Ok?
    decreases |objects|
  {
    if objects != [] {
      var rest := Matching(store, objects[1..], target).value;
      var kept := Matching(store, objects, target).value;
      if Examine(store, objects[0], target) == Ok(true) {
        var h := objects[0];
        var m := Metadata(store[h].payload.text).value;
        assert kept[0] == h && kept[1..] == rest;
        MatchedCommitsBuild(store, objects[1..], target, Put(acc, h, ParentWords(m)));
      } else {
        assert kept == rest;
        MatchedCommitsBuild(store, objects[1..], target, acc);
      }
    }
  }

  /** build_dependency_graph as written hands the undecoded payload bytes to
      parse_commit_data: `bytes.splitlines()` then `line.split(" ", 1)` with a
      str separator raises TypeError for every non-empty payload, and an empty
      payload gives the empty parent list. */
  function DependencyGraphAsWritten(store: Store, commits: seq<string>): Result<Graph> {
    GraphAsWrittenFrom([], store, commits)
  }

  function GraphAsWrittenFrom(acc: Graph, store: Store, commits: seq<string>): Result<Graph>
    decreases |commits|
  {
    if commits == [] then Ok(acc)
    else
      var h := commits[0];
      if h !in store then Err(FileNotFoundError)
      else if store[h].payload != Utf8([]) then Err(TypeError)
      else GraphAsWrittenFrom(Put(acc, h, []), store, commits[1..])
  }

  /** Every commit with a non-empty payload makes the code as written raise
      TypeError: the payload "parent <p>" is one of them. */
  lemma AsWrittenRaisesTypeError(h: string, header: string, p: string)
    ensures DependencyGraphAsWritten(map[h := Object(header, Utf8("parent " + p))], [h]) == Err(TypeError)
  {
    assert ("parent " + p)[0] == 'p';
  }

  /** Decoding first, the same payload yields the words of its `parent` line:
      the graph maps the commit to [p]. */
  lemma DecodedGraphOfParent(h: string, header: string, p: string)
    requires p != [] && NoSpace(p) && NoLineBreak(p)
    ensures DependencyGraph(map[h := Object(header, Utf8("parent " + p))], [h]) == Ok([(h, [p])])
  {
    var store := map[h := Object(header, Utf8("parent " + p))];
    ParentLineFields(p);
    assert ParentWords(map["parent" := p]) == [p] by { TokensOfWord(p); }
    GraphFromOne(store, h, [p]);
  }

  lemma ParentLineFields(p: string)
    requires NoLineBreak(p)
    ensures Metadata("parent " + p) == Ok(map["parent" := p])
  {
    assert NoLineBreak("parent");
    OneHeaderLine("parent", p);
    assert "parent" + " " + p == "parent " + p;
  }

  /** A single listed commit whose parents parse to `ps` gives the one-entry graph. */
  lemma GraphFromOne(store: Store, h: string, ps: seq<string>)
    requires h in store && store[h].payload.Utf8? && Metadata(store[h].payload.text).Ok?
    requires ParentWords(Metadata(store[h].payload.text).value) == ps
    ensures DependencyGraph(store, [h]) == Ok([(h, ps)])
  {
    assert [h][1..] == [];
    assert Put([], h, ps) == [(h, ps)];
    assert GraphFrom([(h, ps)], store, []) == Ok([(h, ps)]);
  }

  /** A payload of two header lines parses to their two fields, the second overwriting. */
  lemma TwoHeaderLines(k1: string, v1: string, k2: string, v2: string)
    requires ' ' !in k1 && ' ' !in k2 && k1 != []
    requires NoLineBreak(k1) && NoLineBreak(v1) && NoLineBreak(k2) && NoLineBreak(v2)
    ensures Metadata(k1 + " " + v1 + "\n" + k2 + " " + v2) == Ok(map[k1 := v1][k2 := v2])
  {
    var l1 := k1 + " " + v1;
    var l2 := k2 + " " + v2;
    NoLineBreakConcat(k1, " ");
    NoLineBreakConcat(k1 + " ", v1);
    NoLineBreakConcat(k2, " ");
    NoLineBreakConcat(k2 + " ", v2);
    var lines := [l1, l2];
    assert lines[1..] == [l2] && lines[1..][1..] == [];
    assert Join(lines, '\n') == l1 + "\n" + l2;
    assert l1 + "\n" + l2 == k1 + " " + v1 + "\n" + k2 + " " + v2;
    SplitLinesJoin(lines);
    SplitOnceField(k1, v1);
    SplitOnceField(k2, v2);
    assert CollectFields(map[][k1 := v1][k2 := v2], []) == Ok(map[k1 := v1][k2 := v2]);
    assert CollectFields(map[][k1 := v1], lines[1..]) == Ok(map[k1 := v1][k2 := v2]);
  }

  // ---------------------------------------------------------------------------
  // generate_graphviz

  const DotHeader: string := "digraph G {"
  const DotNodeStyle: string := "    node [shape=box, fontsize=10];"
  const DotFooter: string := "}"

  function NodeLine(commit: string): string {
    "    \"" + commit + "\" [label=\"" + commit + "\"];"
  }

  function EdgeLine(commit: string, parent: string): string {
    "    \"" + commit + "\" -> \"" + parent + "\";"
  }

  function EdgeLines(commit: string, parents: seq<string>): (r: seq<string>)
    ensures |r| == |parents|
  {
    seq(|parents|, k requires 0 <= k < |parents| => EdgeLine(commit, parents[k]))
  }

  /** The node line of each entry followed by its edge lines, entries in order. */
  function DotBody(graph: Graph): seq<string>
  {
    if graph == [] then []
    else
      var last := graph[|graph| - 1];
      DotBody(graph[..|graph| - 1]) + [NodeLine(last.0)] + EdgeLines(last.0, last.1)
  }

  function DotLines(graph: Graph): seq<string> {
    [DotHeader, DotNodeStyle] + DotBody(graph) + [DotFooter]
  }

  method GenerateGraphviz(graph: Graph) returns (text: string)
    ensures text == Join(DotLines(graph), '\n')
  {
    var dot := [DotHeader];
    dot := dot + [DotNodeStyle];
    var i := 0;
    while i < |graph|
      invariant 0 <= i <= |graph|
      invariant dot == [DotHeader, DotNodeStyle] + DotBody(graph[..i])
    {
      var (commit, parents) := graph[i];
      assert graph[..i + 1][..i] == graph[..i];
      dot := dot + [NodeLine(commit)];
      var j := 0;
      while j < |parents|
        invariant 0 <= j <= |parents|
        invariant dot == [DotHeader, DotNodeStyle] + DotBody(graph[..i]) + [NodeLine(commit)] + EdgeLines(commit, parents[..j])
      {
        dot := dot + [EdgeLine(commit, parents[j])];
        j := j + 1;
      }
      assert parents[..j] == parents;
      i := i + 1;
    }
    assert graph[..i] == graph;
    dot := dot + [DotFooter];
    text := Join(dot, '\n');
  }

  /** Σ |parents| over the entries. */
  function TotalParents(graph: Graph): nat {
    if graph == [] then 0 else TotalParents(graph[..|graph| - 1]) + |graph[|graph| - 1].1|
  }

  /** The text has 3 + |graph| + Σ|parents| lines: one per entry and one per parent. */
  lemma {:induction false} DotLineCount(graph: Graph)
    ensures |DotLines(graph)| == 3 + |graph| + TotalParents(graph)
    decreases |graph|
  {
    if graph != [] {
      DotLineCount(graph[..|graph| - 1]);
    }
  }

  /** Entry `j` occupies the lines from 2 + j + (parents of earlier entries) on:
      its node line, then one edge line per parent in list order. */
  lemma {:induction false} DotBlockAt(graph: Graph, j: nat)
    requires j < |graph|
    ensures var at := 2 + j + TotalParents(graph[..j]);
      at + |graph[j].1| < |DotLines(graph)|
      && DotLines(graph)[at] == NodeLine(graph[j].0)
      && forall k :: 0 <= k < |graph[j].1| ==> DotLines(graph)[at + 1 + k] == EdgeLine(graph[j].0, graph[j].1[k])
    decreases |graph|
  {
    var n := |graph| - 1;
    var init := graph[..n];
    DotLineCount(init);
    assert DotLines(graph) == [DotHeader, DotNodeStyle] + DotBody(init) + [NodeLine(graph[n].0)] + EdgeLines(graph[n].0, graph[n].1) + [DotFooter];
    if j < n {
      DotBlockAt(init, j);
      assert init[..j] == graph[..j];
      assert init[j] == graph[j];
      DotBodyPrefix(init, j);
    } else {
      assert init == graph[..j];
      DotBodyLength(init);
    }
  }

  lemma {:induction false} DotBodyLength(graph: Graph)
    ensures |DotBody(graph)| == |graph| + TotalParents(graph)
    decreases |graph|
  {
    if graph != [] {
      DotBodyLength(graph[..|graph| - 1]);
    }
  }

  /** The body of entry `j` ends before the end of the body of the whole graph. */
  lemma DotBodyPrefix(graph: Graph, j: nat)
    requires j < |graph|
    ensures 1 + j + TotalParents(graph[..j]) + |graph[j].1| <= |DotBody(graph)|
  {
    DotBodyLength(graph);
    DotBodyLength(graph[..j + 1]);
    TotalParentsPrefix(graph, j + 1);
    assert graph[..j + 1][..j] == graph[..j];
  }

  lemma {:induction false} TotalParentsPrefix(graph: Graph, j: nat)
    requires j <= |graph|
    ensures TotalParents(graph[..j]) <= TotalParents(graph)
    decreases |graph|
  {
    if j < |graph| {
      assert graph[..|graph| - 1][..j] == graph[..j];
      TotalParentsPrefix(graph[..|graph| - 1], j);
    } else {
      assert graph[..j] == graph;
    }
  }

  /** `{"C2": ["C1"]}` gives the node line of C2 and then its edge to C1. */
  lemma DotSingleEdge()
    ensures DotLines([("C2", ["C1"])]) ==
      ["digraph G {", "    node [shape=box, fontsize=10];",
       "    \"C2\" [label=\"C2\"];", "    \"C2\" -> \"C1\";", "}"]
  {
    var g: Graph := [("C2", ["C1"])];
    assert g[..0] == [];
    var edges := EdgeLines("C2", ["C1"]);
    assert |edges| == 1 && edges[0] == EdgeLine("C2", "C1");
    assert EdgeLine("C2", "C1") == "    \"C2\" -> \"C1\";";
    assert NodeLine("C2") == "    \"C2\" [label=\"C2\"];";
    assert edges == ["    \"C2\" -> \"C1\";"];
  }

  /** No commit hash and no parent hash of the graph holds a newline. */
  predicate NoNewlineHashes(graph: Graph) {
    forall i :: 0 <= i < |graph| ==> '\n' !in graph[i].0 && forall k :: 0 <= k < |graph[i].1| ==> '\n' !in graph[i].1[k]
  }

  /** Splitting the text at newlines gives back the lines, when no hash holds a newline. */
  lemma DotTextLines(graph: Graph)
    requires NoNewlineHashes(graph)
    ensures SplitOn(Join(DotLines(graph), '\n'), '\n') == DotLines(graph)
  {
    var lines := DotLines(graph);
    forall l | 0 <= l < |lines| ensures '\n' !in lines[l] {
      DotLineNoNewline(graph, l);
    }
    SplitOnJoin(lines, '\n');
  }

  lemma DotLineNoNewline(graph: Graph, l: nat)
    requires NoNewlineHashes(graph)
    requires l < |DotLines(graph)|
    ensures '\n' !in DotLines(graph)[l]
  {
    var body := DotBody(graph);
    if l < 2 {
      assert '\n' !in DotHeader && '\n' !in DotNodeStyle;
    } else if l < 2 + |body| {
      assert DotLines(graph)[l] == body[l - 2];
      DotBodyNoNewline(graph, l - 2);
    } else {
      assert DotLines(graph)[l] == DotFooter;
    }
  }

  lemma {:induction false} DotBodyNoNewline(graph: Graph, l: nat)
    requires NoNewlineHashes(graph)
    requires l < |DotBody(graph)|
    ensures '\n' !in DotBody(graph)[l]
    decreases |graph|
  {
    var n := |graph| - 1;
    var init := graph[..n];
    var c := graph[n].0;
    var body := DotBody(init);
    assert DotBody(graph) == body + [NodeLine(c)] + EdgeLines(c, graph[n].1);
    if l < |body| {
      assert NoNewlineHashes(init) by {
        forall i | 0 <= i < |init| ensures init[i] == graph[i] { }
      }
      DotBodyNoNewline(init, l);
    } else if l == |body| {
      NoNewlineConcat(["    \"", c, "\" [label=\"", c, "\"];"]);
    } else {
      var k := l - |body| - 1;
      NoNewlineConcat(["    \"", c, "\" -> \"", graph[n].1[k], "\";"]);
    }
  }

  lemma NoNewlineConcat(parts: seq<string>)
    requires |parts| == 5 && forall i :: 0 <= i < 5 ==> '\n' !in parts[i]
    ensures '\n' !in parts[0] + parts[1] + parts[2] + parts[3] + parts[4]
  {
  }
}
