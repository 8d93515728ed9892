/** Package archives of internal/registry/archive.go, and their cache. */
module Archive {
  import opened Bytes
  import opened Outcomes
  import opened Orders
  import opened Texts
  import opened Sorting

  const MAX_FILES := 256
  const MAX_DIRECTORIES := 256
  const MAX_DEPTH := 12
  const MAX_BYTES := 8 * 1024 * 1024

  // ------------------------------------------------------------ safe paths

  predicate SafeSegment(s: Text) {
    s != [] && s != [DOT] && s != [DOT, DOT]
  }

  predicate SafeRelative(name: Text) {
    && 0 < |name| <= 100
    && BACKSLASH !in name && 0 !in name && name[0] != SLASH
    && forall s :: s in Split(name, SLASH) ==> SafeSegment(s)
  }

  method CheckSafeRelative(name: Text) returns (r: bool)
    ensures r == SafeRelative(name)
  {
    if name == [] || |name| > 100 || BACKSLASH in name || 0 in name || name[0] == SLASH { return false; }
    var segments := Split(name, SLASH);
    for i := 0 to |segments|
      invariant forall k :: 0 <= k < i ==> SafeSegment(segments[k])
    {
      assert segments[i] in Split(name, SLASH);
      if segments[i] == [] || segments[i] == [DOT] || segments[i] == [DOT, DOT] { return false; }
    }
    return true;
  }

  predicate AreNames(parts: seq<Text>) {
    parts != [] && forall i :: 0 <= i < |parts| ==> SafeSegment(parts[i]) && SLASH !in parts[i]
  }

  ghost predicate JoinsNames(name: Text) {
    exists parts :: AreNames(parts) && Join(parts, SLASH) == name
  }

  /** A safe path never climbs: joined from segments that are all proper names. */
  lemma SafeIsJoinOfNames(name: Text)
    ensures SafeRelative(name) <==> |name| <= 100 && BACKSLASH !in name && 0 !in name && JoinsNames(name)
  {
    if SafeRelative(name) { SplitsIntoNames(name); }
    forall parts | AreNames(parts) && Join(parts, SLASH) == name
      ensures name != [] && name[0] != SLASH && forall s :: s in Split(name, SLASH) ==> SafeSegment(s)
    {
      NamesJoinSafely(parts);
    }
  }

  lemma SplitsIntoNames(name: Text)
    requires forall s :: s in Split(name, SLASH) ==> SafeSegment(s)
    ensures JoinsNames(name)
  {
    JoinSplit(name, SLASH);
    var parts := Split(name, SLASH);
    assert forall i :: 0 <= i < |parts| ==> parts[i] in parts;
    assert AreNames(parts);
  }

  lemma NamesJoinSafely(parts: seq<Text>)
    requires AreNames(parts)
    ensures var name := Join(parts, SLASH);
      name != [] && name[0] != SLASH && forall s :: s in Split(name, SLASH) ==> SafeSegment(s)
  {
    SplitJoin(parts, SLASH);
    assert Join(parts, SLASH)[0] == parts[0][0];
  }

  /** Walking a path's segments from a directory, as file systems do: `..` climbs,
      nothing and `.` stay, and every other name descends. */
  function Resolve(dir: seq<Text>, segments: seq<Text>): seq<Text>
    decreases |segments|
  {
    if segments == [] then dir
    else if segments[0] == [] || segments[0] == Ascii(".") then Resolve(dir, segments[1..])
    else if segments[0] == Ascii("..") then Resolve(if dir == [] then [] else dir[..|dir| - 1], segments[1..])
    else Resolve(dir + [segments[0]], segments[1..])
  }

  predicate Descends(dir: seq<Text>, segments: seq<Text>) {
    Resolve(dir, segments) == dir + segments
  }

  lemma {:induction false} ResolveIsNoDeeper(dir: seq<Text>, segments: seq<Text>)
    ensures |Resolve(dir, segments)| <= |dir| + |segments|
    decreases |segments|
  {
    if segments != [] {
      var rest := segments[1..];
      ResolveIsNoDeeper(dir, rest);
      ResolveIsNoDeeper(dir + [segments[0]], rest);
      ResolveIsNoDeeper(if dir == [] then [] else dir[..|dir| - 1], rest);
    }
  }

  lemma {:induction false} DescendsIff(dir: seq<Text>, segments: seq<Text>)
    ensures Descends(dir, segments) <==> forall s :: s in segments ==> SafeSegment(s)
    decreases |segments|
  {
    if segments == [] {
      assert dir + segments == dir;
    } else {
      var first, rest := segments[0], segments[1..];
      assert segments == [first] + rest;
      assert Ascii(".") == [DOT] && Ascii("..") == [DOT, DOT];
      if SafeSegment(first) {
        DescendsIff(dir + [first], rest);
        assert dir + [first] + rest == dir + segments;
      } else {
        ResolveIsNoDeeper(dir, rest);
        ResolveIsNoDeeper(if dir == [] then [] else dir[..|dir| - 1], rest);
        assert first in segments;
      }
    }
  }

  ghost predicate AlwaysDescends(segments: seq<Text>) {
    forall dir :: Descends(dir, segments)
  }

  lemma AlwaysDescendsIff(segments: seq<Text>)
    ensures AlwaysDescends(segments) <==> forall s :: s in segments ==> SafeSegment(s)
  {
    forall dir ensures Descends(dir, segments) <==> forall s :: s in segments ==> SafeSegment(s) {
      DescendsIff(dir, segments);
    }
    assert AlwaysDescends(segments) ==> Descends([], segments);
  }

  lemma FirstSegmentIsEmpty(name: Text)
    requires name == [] || name[0] == SLASH
    ensures [] in Split(name, SLASH)
  {
    assert Before(name, SLASH) == [];
    assert Split(name, SLASH)[0] == [];
  }

  /** A safe path leads down from every directory, by exactly its own segments; every
      path that does so, and is short and has no backslash or NUL, is safe. */
  lemma SafeDescends(name: Text)
    ensures SafeRelative(name) <==>
      |name| <= 100 && 92 !in name && 0 !in name && AlwaysDescends(Split(name, SLASH))
  {
    hide Split, AlwaysDescends;
    AlwaysDescendsIff(Split(name, SLASH));
    if name == [] || name[0] == SLASH {
      FirstSegmentIsEmpty(name);
      assert !SafeSegment([]);
    }
  }

  // -------------------------------------------------------------- the walk

  /** What the walk finds at a path.  A regular file has the size its status reports
      and the bytes that reading it yields. */
  datatype Kind = Directory | Regular(size: nat, data: Text) | Link | Other

  datatype Node = Node(path: Text, kind: Kind)

  datatype File = File(name: Text, data: Text)

  datatype Refusal =
    | UnsafePath | LinkForbidden | NestingLimit | NonRegular | SizeLimit
    | ManifestMissing | InvalidEntry | EntryMissing | PackingFailed | UnsafeRelease

  function Count(s: Text, c: Byte): nat {
    if s == [] then 0 else (if s[0] == c then 1 else 0) + Count(s[1..], c)
  }

  function Sum<T>(weight: T -> nat, s: seq<T>): nat {
    if s == [] then 0 else weight(s[0]) + Sum(weight, s[1..])
  }

  function FileWeight(n: Node): nat {
    if n.kind.Regular? then 1 else 0
  }

  function DirectoryWeight(n: Node): nat {
    if n.kind.Directory? then 1 else 0
  }

  function ByteWeight(n: Node): nat {
    if n.kind.Regular? then |n.kind.data| else 0
  }

  function FilesOf(nodes: seq<Node>): seq<File> {
    if nodes == [] then []
    else (if nodes[0].kind.Regular? then [File(nodes[0].path, nodes[0].kind.data)] else []) + FilesOf(nodes[1..])
  }

  predicate Admissible(n: Node) {
    && SafeRelative(n.path) && !n.kind.Link? && !n.kind.Other?
    && (n.kind.Directory? ==> Count(n.path, SLASH) <= MAX_DEPTH)
  }

  /** The limits on a tree, with no order of visiting in them. */
  predicate WithinLimits(nodes: seq<Node>) {
    && All(Admissible, nodes)
    && Sum(FileWeight, nodes) <= MAX_FILES
    && Sum(DirectoryWeight, nodes) <= MAX_DIRECTORIES
    && Sum(ByteWeight, nodes) <= MAX_BYTES
  }

  /** The tree does not change while it is walked: a file has as many bytes as its status says. */
  predicate Still(nodes: seq<Node>) {
    forall i :: 0 <= i < |nodes| ==> nodes[i].kind.Regular? ==> nodes[i].kind.size == |nodes[i].kind.data|
  }

  /** No file's status reports more than is left of the cap when the walk reaches it. */
  predicate StatusesFit(nodes: seq<Node>) {
    forall i :: 0 <= i < |nodes| ==> nodes[i].kind.Regular? ==>
      nodes[i].kind.size <= MAX_BYTES - Sum(ByteWeight, nodes[..i])
  }

  lemma StillTreeFits(nodes: seq<Node>)
    requires Still(nodes) && WithinLimits(nodes)
    ensures StatusesFit(nodes)
  {
    forall i | 0 <= i < |nodes| && nodes[i].kind.Regular?
      ensures nodes[i].kind.size <= MAX_BYTES - Sum(ByteWeight, nodes[..i])
    {
      SumExtend(ByteWeight, nodes, i);
    }
  }

  lemma {:induction false} SumAppend<T>(weight: T -> nat, s: seq<T>, t: seq<T>)
    ensures Sum(weight, s + t) == Sum(weight, s) + Sum(weight, t)
  {
    if s == [] { assert s + t == t; }
    else {
      assert (s + t)[1..] == s[1..] + t;
      SumAppend(weight, s[1..], t);
    }
  }

  lemma SumExtend<T>(weight: T -> nat, s: seq<T>, i: nat)
    requires i < |s|
    ensures Sum(weight, s[..i + 1]) == Sum(weight, s[..i]) + weight(s[i])
    ensures Sum(weight, s[..i + 1]) <= Sum(weight, s)
  {
    assert s[..i + 1] == s[..i] + [s[i]];
    assert [s[i]][1..] == [];
    SumAppend(weight, s[..i], [s[i]]);
    SumAppend(weight, s[..i + 1], s[i + 1..]);
    assert s == s[..i + 1] + s[i + 1..];
  }

  lemma {:induction false} FilesAppend(s: seq<Node>, t: seq<Node>)
    ensures FilesOf(s + t) == FilesOf(s) + FilesOf(t)
  {
    if s == [] { assert s + t == t; }
    else {
      var first := if s[0].kind.Regular? then [File(s[0].path, s[0].kind.data)] else [];
      var rest, more := FilesOf(s[1..]), FilesOf(t);
      assert (s + t)[1..] == s[1..] + t;
      FilesAppend(s[1..], t);
      assert FilesOf(s) == first + rest;
      assert FilesOf(s + t) == first + (rest + more);
      assert (first + rest) + more == first + (rest + more);
    }
  }

  lemma FilesExtend(s: seq<Node>, i: nat)
    requires i < |s|
    ensures FilesOf(s[..i + 1]) ==
      FilesOf(s[..i]) + if s[i].kind.Regular? then [File(s[i].path, s[i].kind.data)] else []
  {
    assert s[..i + 1] == s[..i] + [s[i]];
    assert [s[i]][1..] == [];
    FilesAppend(s[..i], [s[i]]);
  }

  lemma {:induction false} FileCount(nodes: seq<Node>)
    ensures |FilesOf(nodes)| == Sum(FileWeight, nodes)
  {
    if nodes != [] { FileCount(nodes[1..]); }
  }

  /** What the counters come to at one node more, and what a tree within the limits allows there. */
  lemma WithinLimitsAt(nodes: seq<Node>, i: nat)
    requires i < |nodes|
    ensures var (now, next) := (nodes[..i], nodes[..i + 1]);
      && Sum(FileWeight, next) == Sum(FileWeight, now) + FileWeight(nodes[i])
      && Sum(DirectoryWeight, next) == Sum(DirectoryWeight, now) + DirectoryWeight(nodes[i])
      && Sum(ByteWeight, next) == Sum(ByteWeight, now) + ByteWeight(nodes[i])
      && (WithinLimits(nodes) ==>
          && Admissible(nodes[i]) && Sum(FileWeight, next) <= MAX_FILES
          && Sum(DirectoryWeight, next) <= MAX_DIRECTORIES && Sum(ByteWeight, next) <= MAX_BYTES)
    ensures StatusesFit(nodes) && nodes[i].kind.Regular? ==>
      nodes[i].kind.size <= MAX_BYTES - Sum(ByteWeight, nodes[..i])
  {
    SumExtend(FileWeight, nodes, i);
    SumExtend(DirectoryWeight, nodes, i);
    SumExtend(ByteWeight, nodes, i);
  }

  lemma CountersAtEnds(nodes: seq<Node>)
    ensures FilesOf(nodes[..0]) == [] && nodes[..|nodes|] == nodes
    ensures Sum(FileWeight, nodes[..0]) == Sum(DirectoryWeight, nodes[..0]) == Sum(ByteWeight, nodes[..0]) == 0
    ensures WithinLimits(nodes) <==>
      && (forall k :: 0 <= k < |nodes| ==> Admissible(nodes[k])) && Sum(FileWeight, nodes) <= MAX_FILES
      && Sum(DirectoryWeight, nodes) <= MAX_DIRECTORIES && Sum(ByteWeight, nodes) <= MAX_BYTES
    ensures StatusesFit(nodes) <==> forall k :: 0 <= k < |nodes| ==> nodes[k].kind.Regular? ==>
      nodes[k].kind.size <= MAX_BYTES - Sum(ByteWeight, nodes[..k])
  {
  }

  lemma {:induction false} SlashesCut(s: Text, c: Byte)
    ensures |Split(s, c)| == Count(s, c) + 1
    decreases |s|
  {
    if s != [] {
      if s[0] == c {
        assert After(s, c) == s[1..];
        SlashesCut(s[1..], c);
      } else {
        SlashesCut(s[1..], c);
        assert c in s <==> c in s[1..];
        if c in s { assert After(s, c) == After(s[1..], c); }
      }
    }
  }

  /** The places of the nodes of a kind. */
  ghost function Chosen(kind: Node -> bool, nodes: seq<Node>): set<int> {
    set i | 0 <= i < |nodes| && kind(nodes[i])
  }

  lemma {:induction false} SumIsCount(weight: Node -> nat, kind: Node -> bool, nodes: seq<Node>, n: nat)
    requires n <= |nodes| && forall node :: weight(node) == if kind(node) then 1 else 0
    ensures Sum(weight, nodes[..n]) == |Chosen(kind, nodes[..n])|
    decreases n
  {
    hide Sum, Chosen;
    ChosenGrows(kind, nodes, n);
    if n > 0 {
      SumIsCount(weight, kind, nodes, n - 1);
      SumExtend(weight, nodes, n - 1);
    } else {
      SumOfNothing(weight, nodes);
    }
  }

  lemma SumOfNothing(weight: Node -> nat, nodes: seq<Node>)
    ensures Sum(weight, nodes[..0]) == 0
  {
  }

  lemma ChosenGrows(kind: Node -> bool, nodes: seq<Node>, n: nat)
    requires n <= |nodes|
    ensures n == 0 ==> |Chosen(kind, nodes[..n])| == 0
    ensures n > 0 ==>
      |Chosen(kind, nodes[..n])| == |Chosen(kind, nodes[..n - 1])| + if kind(nodes[n - 1]) then 1 else 0
  {
    if n > 0 {
      var now, next := Chosen(kind, nodes[..n - 1]), Chosen(kind, nodes[..n]);
      assert next == now + if kind(nodes[n - 1]) then {n - 1} else {};
    }
  }

  lemma {:induction false} BytesAreCounted(nodes: seq<Node>)
    ensures Sum(ByteWeight, nodes) == |AllBytes(FilesOf(nodes))|
  {
    if nodes != [] {
      BytesAreCounted(nodes[1..]);
      var rest := FilesOf(nodes[1..]);
      if nodes[0].kind.Regular? { assert FilesOf(nodes)[1..] == rest; } else { assert FilesOf(nodes) == rest; }
    }
  }

  /** The contents of the files, one after another. */
  function AllBytes(files: seq<File>): Text {
    if files == [] then [] else files[0].data + AllBytes(files[1..])
  }

  /** The limits in full: only directories and regular files, under safe paths; no more
      than 256 of each; no directory under more than twelve others; and eight MiB in all. */
  lemma WithinLimitsIff(nodes: seq<Node>)
    ensures WithinLimits(nodes) <==>
      && (forall n :: n in nodes ==>
            SafeRelative(n.path) && (n.kind.Regular? || (n.kind.Directory? && |Split(n.path, SLASH)| <= 13)))
      && |FilesOf(nodes)| <= 256 && |Chosen((n: Node) => n.kind.Directory?, nodes)| <= 256
      && |AllBytes(FilesOf(nodes))| <= 8_388_608
  {
    assert nodes[..|nodes|] == nodes;
    FileCount(nodes);
    SumIsCount(DirectoryWeight, (n: Node) => n.kind.Directory?, nodes, |nodes|);
    BytesAreCounted(nodes);
    forall n: Node ensures Admissible(n) <==>
      SafeRelative(n.path) && (n.kind.Regular? || (n.kind.Directory? && |Split(n.path, SLASH)| <= 13))
    {
      SlashesCut(n.path, SLASH);
    }
  }

  /** The walk refuses nothing before the `n`th node. */
  ghost predicate PassesUpTo(nodes: seq<Node>, n: nat)
    requires n <= |nodes|
  {
    && (forall k :: 0 <= k < n ==> Admissible(nodes[k]))
    && Sum(FileWeight, nodes[..n]) <= MAX_FILES
    && Sum(DirectoryWeight, nodes[..n]) <= MAX_DIRECTORIES
    && Sum(ByteWeight, nodes[..n]) <= MAX_BYTES
    && forall k :: 0 <= k < n ==> nodes[k].kind.Regular? ==>
         nodes[k].kind.size <= MAX_BYTES - Sum(ByteWeight, nodes[..k])
  }

  /** Why a node is refused, given what came before it. */
  ghost predicate RefusedAt(nodes: seq<Node>, k: nat, e: Refusal)
    requires k < |nodes|
  {
    var n, left := nodes[k], MAX_BYTES - Sum(ByteWeight, nodes[..k]);
    match e
    case UnsafePath => !SafeRelative(n.path)
    case LinkForbidden => SafeRelative(n.path) && n.kind.Link?
    case NonRegular => SafeRelative(n.path) && n.kind.Other?
    case NestingLimit =>
      && SafeRelative(n.path) && n.kind.Directory?
      && (Sum(DirectoryWeight, nodes[..k]) >= 256 || Count(n.path, SLASH) > 12)
    case SizeLimit =>
      && SafeRelative(n.path) && n.kind.Regular?
      && (Sum(FileWeight, nodes[..k]) >= 256 || n.kind.size > left || |n.kind.data| > left)
    case _ => false
  }

  ghost predicate FirstRefused(nodes: seq<Node>, e: Refusal) {
    exists k :: 0 <= k < |nodes| && PassesUpTo(nodes, k) && RefusedAt(nodes, k, e)
  }

  /** The walk's running counters accept exactly the trees within the limits whose
      statuses fit; on a still tree they decide `WithinLimits`.  Whatever the tree does,
      the collected bytes are what was counted and stay within the cap.  A refusal is
      that of the first node refused. */
  method Collect(nodes: seq<Node>) returns (r: Result<seq<File>, Refusal>)
    ensures r.Ok? <==> WithinLimits(nodes) && StatusesFit(nodes)
    ensures Still(nodes) ==> (r.Ok? <==> WithinLimits(nodes))
    ensures r.Ok? ==> r.value == FilesOf(nodes)
    ensures r.Ok? ==> forall n :: n in nodes ==> n.kind.Directory? || n.kind.Regular?
    ensures r.Err? ==> FirstRefused(nodes, r.error)
  {
    hide Sum, FilesOf, Still, WithinLimits, StatusesFit, SafeRelative, Count;
    CountersAtEnds(nodes);
    if Still(nodes) && WithinLimits(nodes) { StillTreeFits(nodes); }
    var files: seq<File> := [];
    var size, directories := 0, 0;
    for i := 0 to |nodes|
      invariant PassesUpTo(nodes, i)
      invariant files == FilesOf(nodes[..i]) && |files| == Sum(FileWeight, nodes[..i])
      invariant directories == Sum(DirectoryWeight, nodes[..i]) && size == Sum(ByteWeight, nodes[..i])
    {
      FilesExtend(nodes, i);
      WithinLimitsAt(nodes, i);
      assert forall e :: RefusedAt(nodes, i, e) ==> FirstRefused(nodes, e);
      var node := nodes[i];
      var safe := CheckSafeRelative(node.path);
      if !safe { return Err(UnsafePath); }
      match node.kind
      case Link => return Err(LinkForbidden);
      case Directory =>
        directories := directories + 1;
        if directories > MAX_DIRECTORIES || Count(node.path, SLASH) > MAX_DEPTH { return Err(NestingLimit); }
      case Other => return Err(NonRegular);
      case Regular(statSize, data) =>
        if |files| >= MAX_FILES || statSize > MAX_BYTES - size { return Err(SizeLimit); }
        var limit := MAX_BYTES - size + 1;
        var raw := if |data| > limit then data[..limit] else data;
        if |raw| > MAX_BYTES - size { return Err(SizeLimit); }
        size := size + |raw|;
        files := files + [File(node.path, raw)];
    }
    return Ok(files);
  }

  // ------------------------------------------- the order does not matter

  lemma SumCons<T>(weight: T -> nat, x: T, s: seq<T>)
    ensures Sum(weight, [x] + s) == weight(x) + Sum(weight, s)
  {
    assert ([x] + s)[1..] == s;
  }

  lemma SumRemoves<T>(weight: T -> nat, s: seq<T>, k: nat)
    requires k < |s|
    ensures Sum(weight, s) == weight(s[k]) + Sum(weight, s[..k] + s[k + 1..])
  {
    hide Sum;
    assert s == s[..k] + ([s[k]] + s[k + 1..]);
    SumCons(weight, s[k], s[k + 1..]);
    SumAppend(weight, s[..k], [s[k]] + s[k + 1..]);
    SumAppend(weight, s[..k], s[k + 1..]);
  }

  lemma WithoutMember<T>(s: seq<T>, t: seq<T>, k: nat)
    requires s != [] && k < |t| && t[k] == s[0] && multiset(s) == multiset(t)
    ensures multiset(s[1..]) == multiset(t[..k] + t[k + 1..])
  {
    assert s == [s[0]] + s[1..];
    assert t == t[..k] + [t[k]] + t[k + 1..];
    assert multiset(s[1..]) == multiset(s) - multiset{s[0]};
    assert multiset(t[..k] + t[k + 1..]) == multiset(t) - multiset{t[k]};
  }

  lemma {:induction false} SumPermuted<T>(weight: T -> nat, s: seq<T>, t: seq<T>)
    requires multiset(s) == multiset(t)
    ensures Sum(weight, s) == Sum(weight, t)
    decreases |s|
  {
    hide CompareNames;
    if s == [] {
      assert |multiset(t)| == 0;
    } else {
      assert s[0] in multiset(t);
      var k :| 0 <= k < |t| && t[k] == s[0];
      WithoutMember(s, t, k);
      SumRemoves(weight, t, k);
      SumPermuted(weight, s[1..], t[..k] + t[k + 1..]);
    }
  }

  lemma FilesRemoves(s: seq<Node>, k: nat)
    requires k < |s|
    ensures multiset(FilesOf(s)) == multiset(FilesOf([s[k]])) + multiset(FilesOf(s[..k] + s[k + 1..]))
  {
    hide FilesOf;
    FilesAppend(s[..k], s[k + 1..]);
    FilesAppend([s[k]], s[k + 1..]);
    FilesAppend(s[..k], [s[k]] + s[k + 1..]);
    assert s == s[..k] + ([s[k]] + s[k + 1..]);
  }

  lemma {:induction false} FilesPermuted(s: seq<Node>, t: seq<Node>)
    requires multiset(s) == multiset(t)
    ensures multiset(FilesOf(s)) == multiset(FilesOf(t))
    decreases |s|
  {
    hide CompareNames;
    if s == [] {
      assert |multiset(t)| == 0;
    } else {
      assert s[0] in multiset(t);
      var k :| 0 <= k < |t| && t[k] == s[0];
      WithoutMember(s, t, k);
      FilesRemoves(t, k);
      FilesAppend([s[0]], s[1..]);
      assert s == [s[0]] + s[1..];
      FilesPermuted(s[1..], t[..k] + t[k + 1..]);
    }
  }

  lemma LimitsPermuted(s: seq<Node>, t: seq<Node>)
    requires multiset(s) == multiset(t)
    ensures WithinLimits(s) == WithinLimits(t)
  {
    SumPermuted(FileWeight, s, t);
    SumPermuted(DirectoryWeight, s, t);
    SumPermuted(ByteWeight, s, t);
    if All(Admissible, s) { AllPermuted(Admissible, s, t); }
    if All(Admissible, t) { AllPermuted(Admissible, t, s); }
  }

  // ------------------------------------------------------------ the artifact

  function CompareNames(a: File, b: File): int {
    CompareBytes(a.name, b.name)
  }

  predicate DistinctNames(files: seq<File>) {
    forall i, j :: 0 <= i < j < |files| ==> files[i].name != files[j].name
  }

  lemma NamesRank()
    ensures Ranks(CompareNames, (f: File) => true)
  {
    forall a: File, b: File, c: File
      ensures CompareNames(a, b) <= 0 || CompareNames(b, a) <= 0
      ensures CompareNames(a, b) == 0 <==> CompareNames(a, b) <= 0 && CompareNames(b, a) <= 0
      ensures CompareNames(a, b) <= 0 && CompareNames(b, c) <= 0 ==> CompareNames(a, c) <= 0
    {
      CompareBytesOrdered(a.name, b.name, c.name);
    }
  }

  /** With distinct names there are no ties, so sorting does not depend on the order given. */
  lemma SortedPermuted(s: seq<File>, t: seq<File>)
    requires multiset(s) == multiset(t) && DistinctNames(s)
    ensures StableSort(CompareNames, s) == StableSort(CompareNames, t)
  {
    var anyFile := (f: File) => true;
    NamesRank();
    SortSorts(CompareNames, anyFile, s);
    SortSorts(CompareNames, anyFile, t);
    SortIsStable(CompareNames, anyFile, s);
    SortIsStable(CompareNames, anyFile, t);
    forall x ensures TiesWith(CompareNames, x, s) == TiesWith(CompareNames, x, t) {
      TiesPermuted(x, s, t);
    }
    var first, second := StableSort(CompareNames, s), StableSort(CompareNames, t);
    forall x ensures TiesWith(CompareNames, x, first) == TiesWith(CompareNames, x, second) {
      assert anyFile(x);
    }
    StableSortIsUnique(CompareNames, anyFile, StableSort(CompareNames, s), StableSort(CompareNames, t));
  }

  lemma {:induction false} TiesAppend(x: File, s: seq<File>, t: seq<File>)
    ensures TiesWith(CompareNames, x, s + t) == TiesWith(CompareNames, x, s) + TiesWith(CompareNames, x, t)
  {
    hide CompareNames;
    if s == [] { assert s + t == t; }
    else {
      var first: seq<File> := if CompareNames(x, s[0]) == 0 then [s[0]] else [];
      var rest, more := TiesWith(CompareNames, x, s[1..]), TiesWith(CompareNames, x, t);
      assert (s + t)[1..] == s[1..] + t;
      TiesAppend(x, s[1..], t);
      assert TiesWith(CompareNames, x, s) == first + rest;
      assert TiesWith(CompareNames, x, s + t) == first + (rest + more);
      assert (first + rest) + more == first + (rest + more);
    }
  }

  lemma NamesTie(x: File, y: File)
    ensures CompareNames(x, y) == 0 <==> x.name == y.name
  {
    CompareBytesOrdered(x.name, y.name, y.name);
  }

  lemma {:induction false} NoTies(x: File, s: seq<File>)
    requires forall i :: 0 <= i < |s| ==> s[i].name != x.name
    ensures TiesWith(CompareNames, x, s) == []
  {
    if s != [] {
      CompareBytesOrdered(x.name, s[0].name, s[0].name);
      NoTies(x, s[1..]);
    }
  }

  /** The ties of a list, around one member. */
  lemma TiesAround(x: File, s: seq<File>, k: nat)
    requires k < |s|
    ensures var (before, after) := (TiesWith(CompareNames, x, s[..k]), TiesWith(CompareNames, x, s[k + 1..]));
      && TiesWith(CompareNames, x, s[..k] + s[k + 1..]) == before + after
      && TiesWith(CompareNames, x, s) == before + ((if x.name == s[k].name then [s[k]] else []) + after)
  {
    hide CompareNames;
    var rest := [s[k]] + s[k + 1..];
    assert s == s[..k] + rest && rest[1..] == s[k + 1..];
    TiesAppend(x, s[..k], rest);
    TiesAppend(x, s[..k], s[k + 1..]);
    NamesTie(x, s[k]);
  }

  lemma {:induction false} TiesPermuted(x: File, s: seq<File>, t: seq<File>)
    requires multiset(s) == multiset(t) && DistinctNames(s)
    ensures TiesWith(CompareNames, x, s) == TiesWith(CompareNames, x, t)
    decreases |s|
  {
    hide CompareNames, TiesWith;
    if s == [] {
      assert |multiset(t)| == 0;
    } else {
      assert s[0] in multiset(t);
      var k :| 0 <= k < |t| && t[k] == s[0];
      WithoutMember(s, t, k);
      TiesPermuted(x, s[1..], t[..k] + t[k + 1..]);
      TiesAround(x, s, 0);
      TiesAround(x, t, k);
      assert s[..0] == [] && s[1..] == s[..0] + s[1..];
      if x.name == s[0].name { NoTies(x, s[1..]); }
    }
  }

  datatype Artifact = Artifact(bytes: Text, digest: Text, entry: Text, dependencies: map<Text, Text>)

  /** What the standard library and the manifest patterns compute. */
  datatype Tools = Tools(
    entryOf: Text -> Option<Text>,
    dependenciesOf: Text -> map<Text, Text>,
    pack: seq<File> -> Option<Text>,
    hash: Text -> Text)

  const MANIFEST: Text := Ascii("package.noqeri")
  const SOURCE_SUFFIX: Text := Ascii(".noqeri")

  function Find(files: seq<File>, name: Text): Option<Text> {
    if files == [] then None else if files[0].name == name then Some(files[0].data) else Find(files[1..], name)
  }

  lemma {:induction false} FindFinds(files: seq<File>, name: Text)
    ensures Find(files, name).Some? <==> exists f :: f in files && f.name == name
    ensures Find(files, name).Some? ==> File(name, Find(files, name).value) in files
  {
    if files != [] {
      FindFinds(files[1..], name);
      assert files == [files[0]] + files[1..];
      if files[0].name == name { assert files[0] == File(name, files[0].data); }
      if exists f :: f in files && f.name == name {
        var f :| f in files && f.name == name;
        assert f == files[0] || f in files[1..];
      }
    }
  }

  predicate HasSuffix(s: Text, suffix: Text) {
    |s| >= |suffix| && s[|s| - |suffix|..] == suffix
  }

  /** The entry and the dependencies are those that some manifest among the files declares. */
  ghost predicate Declares(tools: Tools, files: seq<File>, entry: Text, dependencies: map<Text, Text>) {
    exists data ::
      File(MANIFEST, data) in files && tools.entryOf(data) == Some(entry) && tools.dependenciesOf(data) == dependencies
  }

  /** The steps after the walk, on the sorted files. */
  function Assemble(tools: Tools, files: seq<File>): (r: Result<Artifact, Refusal>)
    ensures r.Ok? ==>
      && r.value.digest == tools.hash(r.value.bytes) && |r.value.bytes| <= MAX_BYTES
      && SafeRelative(r.value.entry) && HasSuffix(r.value.entry, SOURCE_SUFFIX)
      && tools.pack(files) == Some(r.value.bytes)
      && Declares(tools, files, r.value.entry, r.value.dependencies)
      && exists f :: f in files && f.name == r.value.entry
  {
    FindFinds(files, MANIFEST);
    var manifest := Find(files, MANIFEST);
    if manifest.None? then Err(ManifestMissing)
    else
      var entry := tools.entryOf(manifest.value);
      FindFinds(files, if entry.Some? then entry.value else []);
      if entry.None? || !SafeRelative(entry.value) || !HasSuffix(entry.value, SOURCE_SUFFIX) then Err(InvalidEntry)
      else if Find(files, entry.value).None? then Err(EntryMissing)
      else
        var packed := tools.pack(files);
        if packed.None? then Err(PackingFailed)
        else if |packed.value| > MAX_BYTES then Err(SizeLimit)
        else Ok(Artifact(packed.value, tools.hash(packed.value), entry.value, tools.dependenciesOf(manifest.value)))
  }

  ghost predicate EndsWith(s: Text, suffix: Text) {
    exists stem :: s == stem + suffix
  }

  lemma EndsWithIff(s: Text, suffix: Text)
    ensures EndsWith(s, suffix) <==> HasSuffix(s, suffix)
  {
    if HasSuffix(s, suffix) { assert s == s[..|s| - |suffix|] + suffix; }
  }

  /** What an artifact needs of the sorted files: a manifest, whose entry is the safe name of
      a source file among them, and a packing that is not too large. */
  ghost predicate Assembles(tools: Tools, files: seq<File>) {
    && (exists data, entry, body ::
          && File(MANIFEST, data) in files && tools.entryOf(data) == Some(entry)
          && SafeRelative(entry) && EndsWith(entry, Ascii(".noqeri")) && File(entry, body) in files)
    && tools.pack(files).Some? && |tools.pack(files).value| <= 8_388_608
  }

  lemma UniqueFile(files: seq<File>, name: Text, data: Text)
    requires DistinctNames(files) && File(name, data) in files
    ensures Find(files, name) == Some(data)
  {
    FindFinds(files, name);
    var found := File(name, Find(files, name).value);
    var i :| 0 <= i < |files| && files[i] == found;
    var j :| 0 <= j < |files| && files[j] == File(name, data);
    assert i < j ==> files[i].name != files[j].name;
    assert j < i ==> files[j].name != files[i].name;
  }

  /** With distinct names, the steps after the walk succeed exactly on such files. */
  lemma AssembleIff(tools: Tools, files: seq<File>)
    requires DistinctNames(files)
    ensures Assemble(tools, files).Ok? <==> Assembles(tools, files)
  {
    FindFinds(files, MANIFEST);
    forall data | File(MANIFEST, data) in files ensures Find(files, MANIFEST) == Some(data) {
      UniqueFile(files, MANIFEST, data);
    }
    forall entry: Text
      ensures Find(files, entry).Some? <==> exists body :: File(entry, body) in files
      ensures EndsWith(entry, Ascii(".noqeri")) <==> HasSuffix(entry, SOURCE_SUFFIX)
    {
      EndsWithIff(entry, SOURCE_SUFFIX);
      FindFinds(files, entry);
      forall f | f in files && f.name == entry ensures File(entry, f.data) in files { assert f == File(entry, f.data); }
    }
  }

  /** And otherwise the first thing missing is named. */
  lemma AssembleRefuses(tools: Tools, files: seq<File>)
    requires DistinctNames(files)
    ensures var r := Assemble(tools, files);
      && (r == Err(ManifestMissing) <==> forall data :: File(MANIFEST, data) !in files)
      && (forall data :: File(MANIFEST, data) in files ==>
            var entry := tools.entryOf(data);
            && (r == Err(InvalidEntry) <==>
                  entry.None? || !SafeRelative(entry.value) || !EndsWith(entry.value, Ascii(".noqeri")))
            && (r == Err(EntryMissing) <==>
                  && entry.Some? && SafeRelative(entry.value) && EndsWith(entry.value, Ascii(".noqeri"))
                  && forall body :: File(entry.value, body) !in files))
      && (r.Err? ==> r.error in {ManifestMissing, InvalidEntry, EntryMissing, PackingFailed, SizeLimit})
      && (r == Err(PackingFailed) ==> tools.pack(files).None?)
      && (r == Err(SizeLimit) ==> tools.pack(files).Some? && |tools.pack(files).value| > 8_388_608)
  {
    FindFinds(files, MANIFEST);
    forall data | File(MANIFEST, data) in files ensures Find(files, MANIFEST) == Some(data) {
      UniqueFile(files, MANIFEST, data);
    }
    forall entry: Text
      ensures Find(files, entry).Some? <==> exists body :: File(entry, body) in files
      ensures EndsWith(entry, Ascii(".noqeri")) <==> HasSuffix(entry, SOURCE_SUFFIX)
    {
      EndsWithIff(entry, SOURCE_SUFFIX);
      FindFinds(files, entry);
      forall f | f in files && f.name == entry ensures File(entry, f.data) in files { assert f == File(entry, f.data); }
    }
  }

  /** What building a tree comes to, if its statuses fit. */
  function Built(tools: Tools, nodes: seq<Node>): Option<Artifact> {
    if !WithinLimits(nodes) then None
    else
      var r := Assemble(tools, StableSort(CompareNames, FilesOf(nodes)));
      if r.Ok? then Some(r.value) else None
  }

  lemma SortedNamesDiffer(files: seq<File>)
    requires forall i, j :: 0 <= i < j < |files| ==> CompareBytes(files[i].name, files[j].name) < 0
    ensures DistinctNames(files)
  {
    forall i, j | 0 <= i < j < |files| ensures files[i].name != files[j].name {
      CompareBytesOrdered(files[i].name, files[j].name, files[j].name);
    }
  }

  lemma SameFiles(s: seq<File>, t: seq<File>)
    requires multiset(s) == multiset(t)
    ensures forall f :: f in s <==> f in t
  {
    forall f ensures f in s <==> f in t {
      assert f in s <==> f in multiset(s);
      assert f in t <==> f in multiset(t);
    }
  }

  method BuildArchive(tools: Tools, nodes: seq<Node>) returns (r: Result<Artifact, Refusal>)
    ensures r.Ok? <==> StatusesFit(nodes) && Built(tools, nodes).Some?
    ensures r.Ok? ==> Built(tools, nodes) == Some(r.value)
    ensures Still(nodes) && r.Err? ==> Built(tools, nodes).None?
    ensures DistinctPaths(nodes) ==>
      (r.Ok? <==>
         WithinLimits(nodes) && StatusesFit(nodes) && Assembles(tools, StableSort(CompareNames, FilesOf(nodes))))
    ensures r.Err? ==>
      || FirstRefused(nodes, r.error)
      || (WithinLimits(nodes) && StatusesFit(nodes) && r == Assemble(tools, StableSort(CompareNames, FilesOf(nodes))))
    ensures r.Ok? ==> Declares(tools, FilesOf(nodes), r.value.entry, r.value.dependencies)
    ensures r.Ok? ==> tools.pack(StableSort(CompareNames, FilesOf(nodes))) == Some(r.value.bytes)
    ensures r.Ok? ==> r.value.digest == tools.hash(r.value.bytes)
  {
    hide StableSort, WithinLimits, StatusesFit, FilesOf, FirstRefused;
    var collected := Collect(nodes);
    if DistinctPaths(nodes) {
      MembersAreTheFiles(nodes);
      SortedNamesDiffer(StableSort(CompareNames, FilesOf(nodes)));
      AssembleIff(tools, StableSort(CompareNames, FilesOf(nodes)));
    }
    SortPermutes(CompareNames, FilesOf(nodes));
    SameFiles(FilesOf(nodes), StableSort(CompareNames, FilesOf(nodes)));
    if collected.Err? { return Err(collected.error); }
    var files := StableSort(CompareNames, collected.value);
    r := Assemble(tools, files);
  }

  predicate DistinctPaths(nodes: seq<Node>) {
    forall i, j :: 0 <= i < j < |nodes| ==> nodes[i].path != nodes[j].path
  }

  /** A file with this name and these bytes is among the nodes. */
  ghost predicate Contains(nodes: seq<Node>, name: Text, data: Text) {
    exists n :: n in nodes && n.path == name && n.kind.Regular? && n.kind.data == data
  }

  /** What is collected is the regular files, each with its bytes. */
  lemma {:induction false} FileIff(nodes: seq<Node>, f: File)
    ensures f in FilesOf(nodes) <==> Contains(nodes, f.name, f.data)
  {
    if nodes != [] {
      FileIff(nodes[1..], f);
      var head: seq<File> := if nodes[0].kind.Regular? then [File(nodes[0].path, nodes[0].kind.data)] else [];
      assert FilesOf(nodes) == head + FilesOf(nodes[1..]);
      assert nodes == [nodes[0]] + nodes[1..];
      assert f in head <==> nodes[0].path == f.name && nodes[0].kind.Regular? && nodes[0].kind.data == f.data;
      if Contains(nodes[1..], f.name, f.data) {
        var n :| n in nodes[1..] && n.path == f.name && n.kind.Regular? && n.kind.data == f.data;
        assert n in nodes;
      }
    }
  }

  lemma {:induction false} DistinctPathsDistinctNames(nodes: seq<Node>)
    requires DistinctPaths(nodes)
    ensures DistinctNames(FilesOf(nodes))
  {
    if nodes != [] {
      var rest := FilesOf(nodes[1..]);
      DistinctPathsDistinctNames(nodes[1..]);
      forall f | f in rest ensures f.name != nodes[0].path {
        FileIff(nodes[1..], f);
        var n :| n in nodes[1..] && n.path == f.name;
        var i :| 0 <= i < |nodes[1..]| && nodes[1..][i] == n;
        assert nodes[i + 1].path == f.name;
      }
    }
  }

  /** Every order of visiting gives the same decision and the same artifact. */
  lemma BuildIsOrderFree(tools: Tools, nodes: seq<Node>, other: seq<Node>)
    requires multiset(nodes) == multiset(other) && DistinctPaths(nodes)
    ensures Built(tools, nodes) == Built(tools, other)
  {
    LimitsPermuted(nodes, other);
    FilesPermuted(nodes, other);
    DistinctPathsDistinctNames(nodes);
    SortedPermuted(FilesOf(nodes), FilesOf(other));
  }

  /** The packed members are the tree's files, each once, in increasing order of name. */
  lemma MembersAreTheFiles(nodes: seq<Node>)
    requires DistinctPaths(nodes)
    ensures var members := StableSort(CompareNames, FilesOf(nodes));
      && multiset(members) == multiset(FilesOf(nodes))
      && (forall f :: f in members <==> Contains(nodes, f.name, f.data))
      && forall i, j :: 0 <= i < j < |members| ==> CompareBytes(members[i].name, members[j].name) < 0
  {
    hide StableSort;
    var files := FilesOf(nodes);
    NamesRank();
    SortPermutes(CompareNames, files);
    DistinctPathsDistinctNames(nodes);
    forall i, j | 0 <= i < j < |files| ensures CompareNames(files[i], files[j]) != 0 {
      NamesTie(files[i], files[j]);
    }
    SortIsStrict(CompareNames, (f: File) => true, files);
    SameFiles(files, StableSort(CompareNames, files));
    forall f ensures f in files <==> Contains(nodes, f.name, f.data) { FileIff(nodes, f); }
  }

  // --------------------------------------------------------------- the cache

  /** How a root directory and a release path make a directory, and what building from a
      directory gives. */
  datatype Builder = Builder(join: (Text, Text) -> Text, build: Text -> Result<Artifact, Refusal>)

  const PACKAGES: Text := Ascii("packages/")

  predicate Cacheable(path: Text) {
    PACKAGES <= path && SafeRelative(path)
  }

  /** What Get would answer with no cache at all. */
  function Recompute(builder: Builder, root: Text, path: Text): Result<Artifact, Refusal> {
    if Cacheable(path) then builder.build(builder.join(root, path)) else Err(UnsafeRelease)
  }

  /** One lookup: the answer and the items afterwards. */
  function Lookup(builder: Builder, items: map<Text, Artifact>, root: Text, path: Text)
    : (Result<Artifact, Refusal>, map<Text, Artifact>)
  {
    if path in items then (Ok(items[path]), items)
    else
      var r := Recompute(builder, root, path);
      (r, if r.Ok? then items[path := r.value] else items)
  }

  class ArtifactCache {
    var items: map<Text, Artifact>

    constructor ()
      ensures items == map[]
    {
      items := map[];
    }

    method Get(builder: Builder, root: Text, path: Text) returns (r: Result<Artifact, Refusal>)
      modifies this
      ensures (r, items) == Lookup(builder, old(items), root, path)
      ensures path !in old(items) && PACKAGES <= path && SafeRelative(path) ==>
        r == builder.build(builder.join(root, path))
      ensures path !in old(items) && !(PACKAGES <= path && SafeRelative(path)) ==> r == Err(UnsafeRelease)
    {
      if path in items { return Ok(items[path]); }
      var safe := CheckSafeRelative(path);
      if !(PACKAGES <= path) || !safe { return Err(UnsafeRelease); }
      r := builder.build(builder.join(root, path));
      if r.Err? { return r; }
      items := items[path := r.value];
    }
  }

  datatype Request = Request(root: Text, path: Text)

  /** The answers to a run of requests, starting from given items. */
  function Answers(builder: Builder, items: map<Text, Artifact>, requests: seq<Request>): seq<Result<Artifact, Refusal>>
    decreases |requests|
  {
    if requests == [] then []
    else
      var (r, items') := Lookup(builder, items, requests[0].root, requests[0].path);
      [r] + Answers(builder, items', requests[1..])
  }

  function Recomputed(builder: Builder, requests: seq<Request>): seq<Result<Artifact, Refusal>> {
    if requests == [] then []
    else [Recompute(builder, requests[0].root, requests[0].path)] + Recomputed(builder, requests[1..])
  }

  /** No cacheable path is asked for in two directories: the cache's key is the path alone. */
  predicate OneDirectoryPerPath(join: (Text, Text) -> Text, requests: seq<Request>) {
    forall i, j :: 0 <= i < j < |requests| && requests[i].path == requests[j].path && Cacheable(requests[i].path) ==>
      join(requests[i].root, requests[i].path) == join(requests[j].root, requests[j].path)
  }

  /** Every item is what rebuilding gives for each request still to come. */
  ghost predicate ItemsAgree(builder: Builder, items: map<Text, Artifact>, requests: seq<Request>) {
    forall i :: 0 <= i < |requests| && requests[i].path in items ==>
      Recompute(builder, requests[i].root, requests[i].path) == Ok(items[requests[i].path])
  }

  lemma {:induction false} AgreeingItemsAnswerWell(builder: Builder, items: map<Text, Artifact>, requests: seq<Request>)
    requires OneDirectoryPerPath(builder.join, requests) && ItemsAgree(builder, items, requests)
    ensures Answers(builder, items, requests) == Recomputed(builder, requests)
    decreases |requests|
  {
    if requests != [] {
      var (r, items') := Lookup(builder, items, requests[0].root, requests[0].path);
      forall i | 0 <= i < |requests[1..]| && requests[1..][i].path in items'
        ensures Recompute(builder, requests[1..][i].root, requests[1..][i].path) == Ok(items'[requests[1..][i].path])
      {
        assert requests[1..][i] == requests[i + 1];
      }
      AgreeingItemsAnswerWell(builder, items', requests[1..]);
    }
  }

  /** A builder whose artifact names its directory. */
  function NamingBuilder(join: (Text, Text) -> Text): Builder {
    Builder(join, (directory: Text) => Ok(Artifact(directory, [], [], map[])))
  }

  lemma {:induction false} SharedPathMisanswers(
      join: (Text, Text) -> Text, items: map<Text, Artifact>, requests: seq<Request>, i: nat, j: nat)
    requires i < j < |requests| && requests[i].path == requests[j].path && Cacheable(requests[i].path)
    requires join(requests[i].root, requests[i].path) != join(requests[j].root, requests[j].path)
    ensures Answers(NamingBuilder(join), items, requests) != Recomputed(NamingBuilder(join), requests)
    decreases |requests|
  {
    var builder := NamingBuilder(join);
    var (r, items') := Lookup(builder, items, requests[0].root, requests[0].path);
    var answers, wanted := Answers(builder, items, requests), Recomputed(builder, requests);
    assert answers == [r] + Answers(builder, items', requests[1..]);
    assert answers[1..] == Answers(builder, items', requests[1..]) && wanted[1..] == Recomputed(builder, requests[1..]);
    if i > 0 {
      SharedPathMisanswers(join, items', requests[1..], i - 1, j - 1);
    } else if answers[0] == wanted[0] {
      var path := requests[0].path;
      assert path in items' && items'[path].bytes == join(requests[0].root, path);
      StaleAnswer(join, items', requests[1..], j - 1);
    }
  }

  lemma {:induction false} StaleAnswer(
      join: (Text, Text) -> Text, items: map<Text, Artifact>, requests: seq<Request>, j: nat)
    requires j < |requests| && requests[j].path in items && Cacheable(requests[j].path)
    requires items[requests[j].path].bytes != join(requests[j].root, requests[j].path)
    ensures Answers(NamingBuilder(join), items, requests) != Recomputed(NamingBuilder(join), requests)
    decreases |requests|
  {
    var builder := NamingBuilder(join);
    var (r, items') := Lookup(builder, items, requests[0].root, requests[0].path);
    var answers, wanted := Answers(builder, items, requests), Recomputed(builder, requests);
    assert answers[1..] == Answers(builder, items', requests[1..]) && wanted[1..] == Recomputed(builder, requests[1..]);
    if j == 0 {
      assert answers[0] == Ok(items[requests[0].path]);
      assert wanted[0] == builder.build(join(requests[0].root, requests[0].path));
    } else {
      StaleAnswer(join, items', requests[1..], j - 1);
    }
  }

  ghost predicate CacheIsTransparent(join: (Text, Text) -> Text, requests: seq<Request>) {
    forall build: Text -> Result<Artifact, Refusal> ::
      Answers(Builder(join, build), map[], requests) == Recomputed(Builder(join, build), requests)
  }

  /** On unchanging trees a run of lookups answers like rebuilding each time, whatever is
      built, exactly when no path is asked for in two directories. */
  lemma CacheIsTransparentIff(join: (Text, Text) -> Text, requests: seq<Request>)
    ensures CacheIsTransparent(join, requests) <==> OneDirectoryPerPath(join, requests)
  {
    if OneDirectoryPerPath(join, requests) {
      forall build: Text -> Result<Artifact, Refusal>
        ensures Answers(Builder(join, build), map[], requests) == Recomputed(Builder(join, build), requests)
      {
        AgreeingItemsAnswerWell(Builder(join, build), map[], requests);
      }
    } else {
      var i, j :| 0 <= i < j < |requests| && requests[i].path == requests[j].path && Cacheable(requests[i].path)
        && join(requests[i].root, requests[i].path) != join(requests[j].root, requests[j].path);
      SharedPathMisanswers(join, map[], requests, i, j);
      assert NamingBuilder(join) == Builder(join, NamingBuilder(join).build);
    }
  }
}
