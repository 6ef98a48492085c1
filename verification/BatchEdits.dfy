/** Batches of file edits: one operation after the other, and the way back when one of them fails. */
module BatchEdits {
  import opened Wrappers
  import opened LineEdits
  import opened TextEdits

  /** A resolved path, as its components below the root. */
  type Path = seq<string>

  /** Regular files and directories of a workspace; there are no links in it. */
  datatype Tree = Tree(files: map<Path, string>, dirs: set<Path>)

  /** The policy: how names resolve, what may be read and written, and how contents are hashed. */
  datatype Rules = Rules(
    resolve: string -> Option<Path>,
    writable: Path -> bool,
    dirWritable: Path -> bool,
    readable: string -> bool,
    acceptable: string -> bool,
    sha: string -> string,
    strip: string -> string,
    requireHash: bool,
    allowMoveDelete: bool,
    maxOperations: nat)

  datatype Operation =
    | Write(path: string, content: string, createIfMissing: bool, expected: Option<string>)
    | EditFile(path: string, edit: Edit, expected: Option<string>)
    | CreateFile(path: string, content: string, overwrite: bool)
    | Move(source: string, destination: string, overwrite: bool, expected: Option<string>)
    | DeleteFile(path: string, expected: Option<string>)
    | EnsureDirectory(path: string)
    | Unsupported(paths: seq<string>)

  datatype Failure =
    | Rejected
    | Missing
    | Exists
    | Stale
    | BadEdit(error: EditError)
    | NotADirectory
    | TooMany
    | SnapshotFailed
    | RestoreFailed

  // ---- Paths and trees ----

  /** `d` lies above `p`. */
  predicate Above(d: Path, p: Path) { |d| < |p| && p[..|d|] == d }

  function Parents(p: Path): set<Path> { set n | 0 <= n < |p| :: p[..n] }

  lemma ParentsAreAbove(p: Path)
    ensures forall d :: d in Parents(p) <==> Above(d, p)
  {
    forall d | Above(d, p)
      ensures d in Parents(p)
    {
      assert p[..|d|] == d;
    }
  }

  /** Everything lies in directories, and nothing is a file and a directory. */
  ghost predicate WellFormed(t: Tree) {
    && (forall p, d :: (p in t.files || p in t.dirs) && Above(d, p) ==> d in t.dirs)
    && (forall p :: p in t.files ==> p !in t.dirs)
  }

  /** The resolved paths an operation names. */
  function Named(r: Rules, op: Operation): set<Path> {
    match op
    case Move(source, destination, _, _) => Resolved(r, source) + Resolved(r, destination)
    case Unsupported(paths) => set p | p in NamesIn(r, paths)
    case _ => Resolved(r, op.path)
  }

  /** Its paths in the order in which a snapshot looks at them; a name that does not resolve is passed over. */
  function NamesOf(r: Rules, op: Operation): seq<Path> {
    match op
    case Move(source, destination, _, _) => NamesIn(r, [source, destination])
    case Unsupported(paths) => NamesIn(r, paths)
    case _ => NamesIn(r, [op.path])
  }

  function NamesIn(r: Rules, names: seq<string>): seq<Path> {
    if names == [] then []
    else (if r.resolve(names[0]).Some? then [r.resolve(names[0]).value] else []) + NamesIn(r, names[1..])
  }

  lemma NamesAreNamed(r: Rules, op: Operation)
    ensures forall p :: p in NamesOf(r, op) <==> p in Named(r, op)
  {
    if op.Move? {
      NamesInOne(r, op.destination);
      assert [op.source, op.destination][1..] == [op.destination];
    } else if !op.Unsupported? {
      NamesInOne(r, op.path);
    }
  }

  lemma NamesInOne(r: Rules, name: string)
    ensures forall p :: p in NamesIn(r, [name]) <==> p in Resolved(r, name)
  {
    assert [name][1..] == [];
  }

  function Resolved(r: Rules, name: string): set<Path> {
    match r.resolve(name)
    case None => {}
    case Some(p) => {p}
  }

  /** What an operation may turn into a directory: the paths above the files it names, and the directory it ensures. */
  function Openable(r: Rules, op: Operation): set<Path> {
    if op.Unsupported? then {}
    else (set p, d | p in Named(r, op) && d in Parents(p) :: d) + if op.EnsureDirectory? then Named(r, op) else {}
  }

  /** An operation changes no file it does not name, loses no directory, and adds only those it may open. */
  ghost predicate StaysWithin(r: Rules, op: Operation, a: Tree, b: Tree) {
    && WellFormed(b)
    && (forall p :: p !in Named(r, op) ==>
      (p in b.files <==> p in a.files) && (p in a.files ==> b.files[p] == a.files[p]))
    && a.dirs <= b.dirs && b.dirs <= a.dirs + Openable(r, op)
  }

  function TextOf(t: Tree, p: Path): string { if p in t.files then t.files[p] else "" }

  // ---- When an operation succeeds ----

  /** resolve_write_path */
  function Target(r: Rules, t: Tree, name: string, createIfMissing: bool): Result<Path, Failure> {
    match r.resolve(name)
    case None => Err(Rejected)
    case Some(p) =>
      if p == [] || p in t.dirs then Err(Rejected)
      else if p !in t.files && !createIfMissing then Err(Failure.Missing)
      else if !r.writable(p) || p[..|p| - 1] in t.files then Err(Rejected)
      else if p[..|p| - 1] !in t.dirs && !r.dirWritable(p[..|p| - 1]) then Err(Rejected)
      else Ok(p)
  }

  /** _check_expected_hash */
  predicate HashFails(r: Rules, t: Tree, p: Path, expected: Option<string>) {
    && (p in t.files || expected.Some?)
    && if expected.None? || expected.value == "" then r.requireHash
       else p !in t.files || r.sha(t.files[p]) != expected.value
  }

  /** The name stands for no directory, exists or may be created, and the policy allows writing there. */
  predicate MayWrite(r: Rules, t: Tree, name: string, createIfMissing: bool) {
    && r.resolve(name).Some?
    && var p := r.resolve(name).value;
    && p != [] && p !in t.dirs && (p in t.files || createIfMissing) && r.writable(p)
    && p[..|p| - 1] !in t.files && (p[..|p| - 1] in t.dirs || r.dirWritable(p[..|p| - 1]))
  }

  /** The expected hash, if there is one, is that of the file, and there is one where it has to be. */
  predicate HashAgrees(r: Rules, t: Tree, p: Path, expected: Option<string>) {
    if expected.Some? && expected.value != "" then p in t.files && r.sha(t.files[p]) == expected.value
    else r.requireHash ==> p !in t.files && expected.None?
  }

  /** _read_existing_text refuses what is not text or too long. */
  function ReadText(r: Rules, t: Tree, p: Path): Result<string, Failure> {
    if p !in t.files then Err(Failure.Missing) else if r.readable(t.files[p]) then Ok(t.files[p]) else Err(Rejected)
  }

  /** No file stands where a directory above `p` has to be. */
  predicate Free(t: Tree, p: Path) { forall d :: d in Parents(p) ==> d !in t.files }

  predicate TextChangeSucceeds(
    r: Rules, t: Tree, name: string, text: string, createIfMissing: bool, expected: Option<string>, dryRun: bool)
  {
    && MayWrite(r, t, name, createIfMissing)
    && var p := r.resolve(name).value;
    && (p in t.files ==> r.readable(t.files[p])) && HashAgrees(r, t, p, expected)
    && r.acceptable(text) && (TextOf(t, p) != text && !dryRun ==> Free(t, p))
  }

  /** Exactly when an operation on a tree succeeds. */
  predicate Succeeds(r: Rules, op: Operation, t: Tree, dryRun: bool) {
    match op
    case Write(name, content, createIfMissing, expected) =>
      TextChangeSucceeds(r, t, name, content, createIfMissing, expected, dryRun)
    case EditFile(name, edit, expected) =>
      && MayWrite(r, t, name, false)
      && var p := r.resolve(name).value;
      && r.readable(t.files[p]) && HashAgrees(r, t, p, expected)
      && Edited(r.strip, edit, t.files[p]).Ok? && r.acceptable(Edited(r.strip, edit, t.files[p]).value)
    case CreateFile(name, content, overwrite) =>
      && MayWrite(r, t, name, true)
      && var p := r.resolve(name).value;
      && (p in t.files ==> overwrite && r.readable(t.files[p])) && r.acceptable(content)
      && (TextOf(t, p) != content && !dryRun ==> Free(t, p))
    case Move(source, destination, overwrite, expected) =>
      && r.allowMoveDelete && MayWrite(r, t, source, false) && MayWrite(r, t, destination, true)
      && var s, d := r.resolve(source).value, r.resolve(destination).value;
      && r.readable(t.files[s]) && HashAgrees(r, t, s, expected)
      && (d in t.files ==> overwrite && r.readable(t.files[d])) && (s != d && !dryRun ==> Free(t, d))
    case DeleteFile(name, expected) =>
      && r.allowMoveDelete && MayWrite(r, t, name, false)
      && var p := r.resolve(name).value;
      && r.readable(t.files[p]) && HashAgrees(r, t, p, expected)
    case EnsureDirectory(name) =>
      var p := r.resolve(name);
      && p.Some? && p.value != [] && p.value !in t.files && r.dirWritable(p.value)
      && (p.value !in t.dirs && !dryRun ==> Free(t, p.value))
    case Unsupported(_) => false
  }

  /** Whether a successful operation reports a change, dry or not. */
  predicate Reports(r: Rules, op: Operation, t: Tree) {
    match op
    case Write(name, content, _, _) => r.resolve(name).Some? && TextOf(t, r.resolve(name).value) != content
    case EditFile(name, edit, _) =>
      var p := r.resolve(name);
      p.Some? && Edited(r.strip, edit, TextOf(t, p.value)) != Ok(TextOf(t, p.value))
    case CreateFile(name, content, _) => r.resolve(name).Some? && TextOf(t, r.resolve(name).value) != content
    case Move(source, destination, _, _) => r.resolve(source) != r.resolve(destination)
    case DeleteFile(name, _) => r.resolve(name).Some? && TextOf(t, r.resolve(name).value) != ""
    case EnsureDirectory(name) => r.resolve(name).Some? && r.resolve(name).value !in t.dirs
    case Unsupported(_) => false
  }

  // ---- What it does ----

  /** The tree after a text change at `p`. */
  predicate Rewritten(a: Tree, b: Tree, p: Path, text: string) {
    var changed := TextOf(a, p) != text;
    b.files == (if changed then a.files[p := text] else a.files)
      && b.dirs == if changed then a.dirs + Parents(p) else a.dirs
  }

  /** What a successful operation does to the tree: all of it, so that there is only one such tree. */
  ghost predicate EffectIs(r: Rules, op: Operation, a: Tree, b: Tree) {
    match op
    case Write(name, content, createIfMissing, _) =>
      var p := r.resolve(name);
      p.Some? && (p.value in a.files || createIfMissing) && Rewritten(a, b, p.value, content)
    case EditFile(name, edit, _) =>
      var p := r.resolve(name);
      p.Some? && p.value in a.files && Edited(r.strip, edit, a.files[p.value]).Ok?
      && Rewritten(a, b, p.value, Edited(r.strip, edit, a.files[p.value]).value)
    case CreateFile(name, content, overwrite) =>
      var p := r.resolve(name);
      p.Some? && (p.value in a.files ==> overwrite) && Rewritten(a, b, p.value, content)
    case Move(source, destination, overwrite, _) =>
      var s, d := r.resolve(source), r.resolve(destination);
      && s.Some? && d.Some? && s.value in a.files && (d.value in a.files ==> overwrite)
      && b.files == (if s != d then (a.files - {s.value})[d.value := a.files[s.value]] else a.files)
      && b.dirs == if s != d then a.dirs + Parents(d.value) else a.dirs
    case DeleteFile(name, _) =>
      var p := r.resolve(name);
      p.Some? && p.value in a.files && b == Tree(a.files - {p.value}, a.dirs)
    case EnsureDirectory(name) =>
      var p := r.resolve(name);
      p.Some? && b == Tree(a.files, a.dirs + Parents(p.value) + {p.value})
    case Unsupported(_) => false
  }

  /** One operation's turn: it succeeds exactly when it can, and then has its effect unless it is dry. */
  ghost predicate TurnIs(r: Rules, op: Operation, dryRun: bool, a: Tree, b: Tree, result: Option<bool>) {
    && (result.Some? <==> Succeeds(r, op, a, dryRun)) && (result.Some? ==> result.value == Reports(r, op, a))
    && if result.Some? && !dryRun then EffectIs(r, op, a, b) else b == a
  }

  /** A turn that succeeds reports a change exactly when the tree is another one, but for the end of an empty file. */
  lemma ReportsTell(r: Rules, op: Operation, a: Tree, b: Tree, changed: bool)
    requires WellFormed(a) && TurnIs(r, op, false, a, b, Some(changed))
    ensures changed <==> b != a && !(op.DeleteFile? && TextOf(a, r.resolve(op.path).value) == "")
  {
    hide Edited, WellFormed;
    if op.EnsureDirectory? && r.resolve(op.path).value in a.dirs {
      DirsAreThere(a, r.resolve(op.path).value);
    }
  }

  /** A successful edit of a file leaves the text it should there, unless it is dry, and reports a change of it. */
  ghost predicate EditLeaves(r: Rules, name: string, edit: Edit, dryRun: bool, a: Tree, b: Tree, changed: bool) {
    var p := r.resolve(name);
    && p.Some? && p.value in a.files && b.dirs == a.dirs
    && exists text ::
         && EditIs(r.strip, edit, a.files[p.value], Ok(text))
         && (changed <==> text != a.files[p.value])
         && b.files == if dryRun then a.files else a.files[p.value := text]
  }

  lemma EditLeft(
    r: Rules, name: string, edit: Edit, dryRun: bool, a: Tree, b: Tree, changed: bool, p: Path, text: string)
    requires WellFormed(a) && r.resolve(name) == Some(p) && p in a.files
    requires EditIs(r.strip, edit, a.files[p], Ok(text)) && changed == (text != a.files[p])
    requires if dryRun then b == a else Rewritten(a, b, p, text)
    ensures EditLeaves(r, name, edit, dryRun, a, b, changed)
  {
    hide EditIs;
    ParentsAreAbove(p);
    assert a.dirs + Parents(p) == a.dirs;
    assert !changed ==> a.files[p := text] == a.files;
  }

  function AllNamed(r: Rules, ops: seq<Operation>): set<Path> { set op, p | op in ops && p in Named(r, op) :: p }

  function AllOpenable(r: Rules, ops: seq<Operation>): set<Path> { set op, d | op in ops && d in Openable(r, op) :: d }

  /** A whole batch changes no file it does not name, and adds only directories it may open. */
  ghost predicate StaysWithinAll(r: Rules, ops: seq<Operation>, a: Tree, b: Tree) {
    && (forall p :: p !in AllNamed(r, ops) ==>
      (p in b.files <==> p in a.files) && (p in a.files ==> b.files[p] == a.files[p]))
    && a.dirs <= b.dirs && b.dirs <= a.dirs + AllOpenable(r, ops)
  }

  lemma StaysWithinMore(r: Rules, ops: seq<Operation>, i: nat, a: Tree, b: Tree, c: Tree)
    requires i < |ops| && StaysWithinAll(r, ops, a, b) && StaysWithin(r, ops[i], b, c)
    ensures StaysWithinAll(r, ops, a, c) && WellFormed(c)
  {
    hide Openable, Named;
    assert ops[i] in ops;
    assert forall d :: d in Openable(r, ops[i]) ==> d in AllOpenable(r, ops);
    assert forall p :: p in Named(r, ops[i]) ==> p in AllNamed(r, ops);
  }

  lemma EffectStays(r: Rules, op: Operation, a: Tree, b: Tree)
    requires WellFormed(b) && EffectIs(r, op, a, b)
    ensures StaysWithin(r, op, a, b)
  {
    hide Edited, WellFormed;
  }

  lemma Nothing(r: Rules, op: Operation, a: Tree)
    requires WellFormed(a)
    ensures StaysWithin(r, op, a, a)
  {
  }

  // ---- A whole batch ----

  type BatchResult = Result<(Option<nat>, nat, bool), Failure>

  /** The turns of a batch, one tree after the other. */
  ghost predicate Played(r: Rules, ops: seq<Operation>, dryRun: bool, trees: seq<Tree>, results: seq<Option<bool>>) {
    && |trees| == |results| + 1 && |results| <= |ops|
    && forall i :: 0 <= i < |results| ==> TurnIs(r, ops[i], dryRun, trees[i], trees[i + 1], results[i])
  }

  lemma PlayedMore(
    r: Rules, ops: seq<Operation>, dryRun: bool, trees: seq<Tree>, results: seq<Option<bool>>, t: Tree,
    result: Option<bool>)
    requires Played(r, ops, dryRun, trees, results) && |results| < |ops|
    requires TurnIs(r, ops[|results|], dryRun, trees[|results|], t, result)
    ensures Played(r, ops, dryRun, trees + [t], results + [result])
  {
    hide TurnIs;
  }

  /** An atomic batch ends with its first failure, any other one with its last operation. */
  predicate EndsRight(ops: seq<Operation>, atomic: bool, results: seq<Option<bool>>) {
    if atomic then
      && (forall i :: 0 <= i < |results| - 1 ==> results[i].Some?)
      && (|results| < |ops| ==> |results| > 0 && results[|results| - 1].None?)
    else |results| == |ops|
  }

  function LastFailure(results: seq<Option<bool>>): Option<nat> {
    if results == [] then None
    else if results[|results| - 1].None? then Some(|results| - 1)
    else LastFailure(results[..|results| - 1])
  }

  /** How many operations succeeded and changed something. */
  function Count(results: seq<Option<bool>>): nat {
    if results == [] then 0
    else Count(results[..|results| - 1]) + if results[|results| - 1] == Some(true) then 1 else 0
  }

  /** LastFailure names the last turn that failed. */
  lemma {:induction false} LastFailureIs(results: seq<Option<bool>>)
    ensures match LastFailure(results)
      case None => forall i :: 0 <= i < |results| ==> results[i].Some?
      case Some(k) => k < |results| && results[k].None? && forall i :: k < i < |results| ==> results[i].Some?
  {
    if results != [] {
      LastFailureIs(results[..|results| - 1]);
    }
  }

  function TurnsThatChanged(results: seq<Option<bool>>): set<nat> {
    set i: nat | i < |results| && results[i] == Some(true)
  }

  /** Count is the number of turns that changed something. */
  lemma {:induction false} CountIs(results: seq<Option<bool>>)
    ensures Count(results) == |TurnsThatChanged(results)|
  {
    if results != [] {
      var n := |results| - 1;
      CountIs(results[..n]);
      assert TurnsThatChanged(results) ==
        TurnsThatChanged(results[..n]) + if results[n] == Some(true) then {n} else {};
    }
  }

  lemma OneMore(results: seq<Option<bool>>, result: Option<bool>)
    ensures LastFailure(results + [result]) == if result.None? then Some(|results|) else LastFailure(results)
    ensures Count(results + [result]) == Count(results) + if result == Some(true) then 1 else 0
  {
    assert (results + [result])[..|results|] == results;
  }

  // ---- The order of the snapshot ----

  /** `order` with those of `ps` behind it that it does not have yet. */
  function AppendNew(order: seq<Path>, ps: seq<Path>): seq<Path> {
    if ps == [] then order
    else
      var front, last := AppendNew(order, ps[..|ps| - 1]), ps[|ps| - 1];
      if last in front then front else front + [last]
  }

  lemma {:induction false} AppendNewHas(order: seq<Path>, ps: seq<Path>)
    ensures forall p :: p in AppendNew(order, ps) <==> p in order || p in ps
  {
    if ps != [] {
      AppendNewHas(order, ps[..|ps| - 1]);
      assert ps == ps[..|ps| - 1] + [ps[|ps| - 1]];
    }
  }

  /** Every named path once, where it is named first. */
  function OrderOf(r: Rules, ops: seq<Operation>): seq<Path> {
    if ops == [] then []
    else AppendNew(OrderOf(r, ops[..|ops| - 1]), NamesOf(r, ops[|ops| - 1]))
  }

  lemma {:induction false} OrderHas(r: Rules, ops: seq<Operation>)
    ensures forall p :: p in OrderOf(r, ops) <==> p in AllNamed(r, ops)
  {
    if ops != [] {
      var front, last := ops[..|ops| - 1], ops[|ops| - 1];
      hide Named, NamesOf;
      OrderHas(r, front);
      AppendNewHas(OrderOf(r, front), NamesOf(r, last));
      NamesAreNamed(r, last);
      assert ops == front + [last];
      assert forall op :: op in ops <==> op in front || op == last;
    }
  }

  lemma {:induction false} AppendNewKeeps(order: seq<Path>, ps: seq<Path>)
    ensures order <= AppendNew(order, ps)
    ensures (forall i, j :: 0 <= i < j < |order| ==> order[i] != order[j]) ==>
      forall i, j :: 0 <= i < j < |AppendNew(order, ps)| ==> AppendNew(order, ps)[i] != AppendNew(order, ps)[j]
  {
    if ps != [] {
      AppendNewKeeps(order, ps[..|ps| - 1]);
    }
  }

  /** Every path stands where it was named first: later operations only add behind, and nothing stands twice. */
  lemma {:induction false} OrderGrows(r: Rules, ops: seq<Operation>, n: nat)
    requires n <= |ops|
    ensures OrderOf(r, ops[..n]) <= OrderOf(r, ops)
    ensures forall i, j :: 0 <= i < j < |OrderOf(r, ops)| ==> OrderOf(r, ops)[i] != OrderOf(r, ops)[j]
    decreases |ops|
  {
    hide NamesOf, AppendNew;
    if ops != [] {
      var front := ops[..|ops| - 1];
      AppendNewKeeps(OrderOf(r, front), NamesOf(r, ops[|ops| - 1]));
      if n < |ops| {
        OrderGrows(r, front, n);
        assert front[..n] == ops[..n];
      } else {
        OrderGrows(r, front, |front|);
        assert ops[..n] == ops;
      }
    }
  }

  /** How far a restore gets: to the first file whose place is a directory. */
  function Blocked(order: seq<Path>, t: Tree, dirs: set<Path>): (k: nat)
    ensures k <= |order| && (k < |order| ==> order[k] in t.files && order[k] in dirs)
    ensures forall i :: 0 <= i < k ==> !(order[i] in t.files && order[i] in dirs)
  {
    if order == [] || (order[0] in t.files && order[0] in dirs) then 0 else 1 + Blocked(order[1..], t, dirs)
  }

  /** Both trees have the same file at `p`, or none. */
  predicate SameFile(a: Tree, b: Tree, p: Path) {
    (p in a.files <==> p in b.files) && (p in a.files ==> a.files[p] == b.files[p])
  }

  /** The files after a restore that gets to place `k`: as in the snapshot up to there, as they were behind it. */
  ghost predicate RestoredTo(order: seq<Path>, k: nat, start: Tree, last: Tree, end: Tree)
    requires k <= |order|
  {
    forall p :: SameFile(end, if p in order[..k] then start else last, p)
  }

  lemma NothingRestored(order: seq<Path>, start: Tree, last: Tree)
    ensures RestoredTo(order, 0, start, last, last)
  {
  }

  lemma RestoredMore(order: seq<Path>, k: nat, start: Tree, last: Tree, now: Tree)
    requires k < |order| && RestoredTo(order, k, start, last, now)
    ensures order[k] !in start.files ==>
      RestoredTo(order, k + 1, start, last, Tree(now.files - {order[k]}, now.dirs))
    ensures order[k] in start.files ==>
      RestoredTo(order, k + 1, start, last, Tree(now.files[order[k] := start.files[order[k]]], now.dirs))
  {
    assert order[..k + 1] == order[..k] + [order[k]];
    assert forall p :: SameFile(now, if p in order[..k] then start else last, p);
  }

  /** A file the batch names has become a directory. */
  ghost predicate PlaceTaken(r: Rules, ops: seq<Operation>, start: Tree, end: Tree) {
    exists p :: p in AllNamed(r, ops) && p in start.files && p in end.dirs
  }

  /** A file the batch names cannot be read. */
  ghost predicate Unreadable(r: Rules, ops: seq<Operation>, start: Tree) {
    exists p :: p in AllNamed(r, ops) && p in start.files && !r.readable(start.files[p])
  }

  /** What a batch answers and leaves behind once its turns were played. */
  ghost predicate PlayedOut(
    r: Rules, ops: seq<Operation>, atomic: bool, dryRun: bool, trees: seq<Tree>, results: seq<Option<bool>>,
    answer: BatchResult, end: Tree)
    requires |trees| == |results| + 1
  {
    var start, last, failed := trees[0], trees[|results|], LastFailure(results);
    if atomic && !dryRun && failed.Some? then
      && end.dirs == last.dirs
      && RestoredTo(OrderOf(r, ops), Blocked(OrderOf(r, ops), start, last.dirs), start, last, end)
      && if PlaceTaken(r, ops, start, last) then answer == Err(RestoreFailed)
         else answer == Ok((failed, Count(results), true)) && end.files == start.files
    else answer == Ok((failed, Count(results), false)) && end == last
  }

  /** The text at `s` is at `d`, nothing is left at `s`, and every other file is as it was. */
  predicate Moved(a: map<Path, string>, b: map<Path, string>, s: Path, d: Path) {
    s in a && d in b && b[d] == a[s] && (s != d ==> s !in b) && b - {s, d} == a - {s, d}
  }

  lemma ItMoved(a: map<Path, string>, s: Path, d: Path)
    requires s in a
    ensures Moved(a, if s != d then a[d := a[s]] - {s} else a, s, d)
  {
  }

  /** The outcome of a batch: refused with nothing done, or played out. */
  ghost predicate BatchIs(
    r: Rules, ops: seq<Operation>, atomic: bool, dryRun: bool, start: Tree, end: Tree, answer: BatchResult,
    trees: seq<Tree>, results: seq<Option<bool>>)
  {
    if |ops| > r.maxOperations then answer == Err(TooMany) && end == start
    else if atomic && !dryRun && Unreadable(r, ops, start) then answer == Err(SnapshotFailed) && end == start
    else
      && Played(r, ops, dryRun, trees, results) && EndsRight(ops, atomic, results) && trees[0] == start
      && PlayedOut(r, ops, atomic, dryRun, trees, results, answer, end)
  }

  function Answer(r: Result<bool, Failure>): Option<bool> { if r.Ok? then Some(r.value) else None }

  /** Above a file there are only directories. */
  lemma FilesAreFree(t: Tree, p: Path)
    requires WellFormed(t) && p in t.files
    ensures Free(t, p)
  {
    ParentsAreAbove(p);
  }

  lemma FileGone(t: Tree, p: Path)
    requires WellFormed(t)
    ensures WellFormed(Tree(t.files - {p}, t.dirs))
  {
  }

  lemma DirsAreThere(t: Tree, p: Path)
    requires WellFormed(t) && p in t.dirs
    ensures t.dirs + Parents(p) + {p} == t.dirs
  {
    ParentsAreAbove(p);
  }

  // ---- The workspace ----

  class Workspace {
    const rules: Rules
    var files: map<Path, string>
    var dirs: set<Path>

    function Now(): Tree
      reads this
    {
      Tree(files, dirs)
    }

    constructor (rules: Rules, files: map<Path, string>, dirs: set<Path>)
      ensures this.rules == rules && Now() == Tree(files, dirs)
    {
      this.rules, this.files, this.dirs := rules, files, dirs;
    }

    /** mkdir with parents and exist_ok: it fails when a file is in the way. */
    method MakeDirs(p: Path) returns (ok: bool)
      requires WellFormed(Now())
      modifies `dirs
      ensures WellFormed(Now())
      ensures ok <==> forall d :: d in Parents(p) + {p} ==> d !in files
      ensures dirs == if ok then old(dirs) + Parents(p) + {p} else old(dirs)
    {
      ParentsAreAbove(p);
      ok := forall d :: d in Parents(p) + {p} ==> d !in files;
      if ok {
        dirs := dirs + Parents(p) + {p};
        DirsAdded(Tree(files, old(dirs)), p);
      }
    }

    /** The write behind every text edit: parents first, then the file. */
    method Put(p: Path, text: string) returns (ok: bool)
      requires WellFormed(Now()) && p != [] && p !in dirs
      modifies this
      ensures WellFormed(Now())
      ensures ok ==> files == old(files)[p := text] && dirs == old(dirs) + Parents(p)
      ensures !ok ==> Now() == old(Now())
      ensures ok <==> forall d :: d in Parents(p) ==> d !in old(files)
    {
      ParentsAreAbove(p);
      ParentsOfParent(p);
      ok := MakeDirs(p[..|p| - 1]);
      if ok {
        files := files[p := text];
      }
    }

    /** _apply_text_change */
    method ApplyTextChange(name: string, text: string, createIfMissing: bool, expected: Option<string>, dryRun: bool)
      returns (r: Result<bool, Failure>)
      requires WellFormed(Now())
      modifies this
      ensures WellFormed(Now()) && (dryRun || r.Err? ==> Now() == old(Now()))
      ensures r.Ok? <==> TextChangeSucceeds(rules, old(Now()), name, text, createIfMissing, expected, dryRun)
      ensures r.Ok? ==>
        var p := rules.resolve(name);
        p.Some? && r.value == (TextOf(old(Now()), p.value) != text)
          && (!dryRun ==> Rewritten(old(Now()), Now(), p.value, text))
      ensures r.Ok? && !dryRun ==>
        var p := rules.resolve(name).value;
        TextOf(Now(), p) == text && files - {p} == old(files) - {p}
      ensures r.Err? ==> !r.error.BadEdit?
    {
      hide Parents, WellFormed;
      var target := Target(rules, Now(), name, createIfMissing);
      if target.Err? {
        return Err(target.error);
      }
      var p := target.value;
      var before := "";
      if p in files {
        var existing := ReadText(rules, Now(), p);
        if existing.Err? {
          return Err(existing.error);
        }
        before := existing.value;
      }
      if HashFails(rules, Now(), p, expected) {
        return Err(Stale);
      }
      if !rules.acceptable(text) {
        return Err(Rejected);
      }
      if before != text && !dryRun {
        var ok := Put(p, text);
        if !ok {
          return Err(NotADirectory);
        }
      }
      r := Ok(before != text);
    }

    /** The edits of an existing file: read, check the hash, compute the new text, apply it. */
    method RunEdit(name: string, edit: Edit, expected: Option<string>, dryRun: bool) returns (r: Result<bool, Failure>)
      requires WellFormed(Now())
      modifies this
      ensures WellFormed(Now())
      ensures TurnIs(rules, EditFile(name, edit, expected), dryRun, old(Now()), Now(), Answer(r))
      ensures r.Ok? ==> EditLeaves(rules, name, edit, dryRun, old(Now()), Now(), r.value)
      ensures r.Err? && r.error.BadEdit? ==>
        var p := rules.resolve(name);
        && Now() == old(Now()) && p.Some? && p.value in files
        && EditIs(rules.strip, edit, files[p.value], Err(r.error.error))
    {
      hide Edited, EditIs, Parents, WellFormed;
      var target := Target(rules, Now(), name, false);
      if target.Err? {
        return Err(target.error);
      }
      var text := ReadText(rules, Now(), target.value);
      if text.Err? {
        return Err(text.error);
      }
      if HashFails(rules, Now(), target.value, expected) {
        return Err(Stale);
      }
      var edited := Edited(rules.strip, edit, text.value);
      EditedIs(rules.strip, edit, text.value);
      if edited.Err? {
        return Err(BadEdit(edited.error));
      }
      FilesAreFree(Now(), target.value);
      r := ApplyTextChange(name, edited.value, false, expected, dryRun);
      if r.Ok? {
        EditLeft(rules, name, edit, dryRun, old(Now()), Now(), r.value, target.value, edited.value);
      }
    }

    /** create_text_file */
    method RunCreate(name: string, content: string, overwrite: bool, dryRun: bool) returns (r: Result<bool, Failure>)
      requires WellFormed(Now())
      modifies this
      ensures WellFormed(Now())
      ensures TurnIs(rules, CreateFile(name, content, overwrite), dryRun, old(Now()), Now(), Answer(r))
      ensures r.Ok? ==>
        var p := rules.resolve(name).value;
        && files - {p} == old(files) - {p} && (p in old(files) ==> overwrite)
        && TextOf(Now(), p) == if dryRun then TextOf(old(Now()), p) else content
    {
      hide Parents, WellFormed;
      var target := Target(rules, Now(), name, true);
      if target.Err? {
        return Err(target.error);
      }
      var p := target.value;
      if p in files && !overwrite {
        return Err(Exists);
      }
      var before := if p in files then files[p] else "";
      if (p in files && !rules.readable(before)) || !rules.acceptable(content) {
        return Err(Rejected);
      }
      if before != content && !dryRun {
        var ok := Put(p, content);
        if !ok {
          return Err(NotADirectory);
        }
      }
      r := Ok(before != content);
    }

    /** move_path */
    method RunMove(source: string, destination: string, overwrite: bool, expected: Option<string>, dryRun: bool)
      returns (r: Result<bool, Failure>)
      requires WellFormed(Now())
      modifies this
      ensures WellFormed(Now())
      ensures TurnIs(rules, Move(source, destination, overwrite, expected), dryRun, old(Now()), Now(), Answer(r))
      ensures r.Ok? && !dryRun ==>
        var s, d := rules.resolve(source).value, rules.resolve(destination).value;
        Moved(old(files), files, s, d) && (d in old(files) ==> overwrite)
    {
      hide Parents, WellFormed;
      if !rules.allowMoveDelete {
        return Err(Rejected);
      }
      var from, to := Target(rules, Now(), source, false), Target(rules, Now(), destination, true);
      if from.Err? || to.Err? {
        return Err(if from.Err? then from.error else to.error);
      }
      var s, d := from.value, to.value;
      var text := ReadText(rules, Now(), s);
      if text.Err? {
        return Err(text.error);
      }
      if HashFails(rules, Now(), s, expected) {
        return Err(Stale);
      }
      if d in files && !overwrite {
        return Err(Exists);
      }
      if d in files && !rules.readable(files[d]) {
        return Err(Rejected);
      }
      if s != d && !dryRun {
        var ok := Put(d, text.value);
        if !ok {
          return Err(NotADirectory);
        }
        FileGone(Now(), s);
        files := files - {s};
      }
      ItMoved(old(files), s, d);
      r := Ok(s != d);
    }

    /** delete_path */
    method RunDelete(name: string, expected: Option<string>, dryRun: bool) returns (r: Result<bool, Failure>)
      requires WellFormed(Now())
      modifies this
      ensures WellFormed(Now())
      ensures TurnIs(rules, DeleteFile(name, expected), dryRun, old(Now()), Now(), Answer(r))
      ensures r.Ok? && !dryRun ==>
        var p := rules.resolve(name).value;
        p in old(files) && files == old(files) - {p} && dirs == old(dirs)
    {
      hide Parents, WellFormed;
      if !rules.allowMoveDelete {
        return Err(Rejected);
      }
      var target := Target(rules, Now(), name, false);
      if target.Err? {
        return Err(target.error);
      }
      var text := ReadText(rules, Now(), target.value);
      if text.Err? {
        return Err(text.error);
      }
      if HashFails(rules, Now(), target.value, expected) {
        return Err(Stale);
      }
      if !dryRun {
        FileGone(Now(), target.value);
        files := files - {target.value};
      }
      r := Ok(text.value != "");
    }

    /** ensure_directory */
    method RunEnsure(name: string, dryRun: bool) returns (r: Result<bool, Failure>)
      requires WellFormed(Now())
      modifies `dirs
      ensures WellFormed(Now())
      ensures TurnIs(rules, EnsureDirectory(name), dryRun, old(Now()), Now(), Answer(r))
      ensures r.Ok? && !dryRun ==> rules.resolve(name).value in dirs
    {
      hide Parents, WellFormed;
      var target := rules.resolve(name);
      if target.None? || target.value == [] || target.value in files || !rules.dirWritable(target.value) {
        return Err(Rejected);
      }
      var changed := target.value !in dirs;
      if changed && !dryRun {
        var ok := MakeDirs(target.value);
        if !ok {
          return Err(NotADirectory);
        }
      } else if !changed {
        DirsAreThere(Now(), target.value);
      }
      r := Ok(changed);
    }

    /** _run_operation */
    method RunOperation(op: Operation, dryRun: bool) returns (r: Result<bool, Failure>)
      requires WellFormed(Now())
      modifies this
      ensures WellFormed(Now()) && StaysWithin(rules, op, old(Now()), Now())
      ensures TurnIs(rules, op, dryRun, old(Now()), Now(), Answer(r))
    {
      hide WellFormed, Edited, Parents;
      Nothing(rules, op, Now());
      match op {
        case Write(name, content, createIfMissing, expected) =>
          r := ApplyTextChange(name, content, createIfMissing, expected, dryRun);
        case EditFile(name, edit, expected) => r := RunEdit(name, edit, expected, dryRun);
        case CreateFile(name, content, overwrite) => r := RunCreate(name, content, overwrite, dryRun);
        case Move(source, destination, overwrite, expected) =>
          r := RunMove(source, destination, overwrite, expected, dryRun);
        case DeleteFile(name, expected) => r := RunDelete(name, expected, dryRun);
        case EnsureDirectory(name) => r := RunEnsure(name, dryRun);
        case Unsupported(_) => r := Err(Rejected);
      }
      if r.Ok? && !dryRun {
        EffectStays(rules, op, old(Now()), Now());
      }
    }

    /** The snapshot of the paths in `order`: the text of each, or that it is no file. */
    ghost predicate SnapshotIs(t: Tree, order: seq<Path>, snapshot: map<Path, Option<string>>) {
      && (forall p :: p in order <==> p in snapshot)
      && forall p :: p in snapshot ==> snapshot[p] == if p in t.files then Some(t.files[p]) else None
    }

    /** All files among `ps` can be read. */
    ghost predicate AllReadable(ps: seq<Path>)
      reads this
    {
      forall p :: p in ps && p in files ==> rules.readable(files[p])
    }

    /** The inner loop of _snapshot_paths, over the paths one operation names. */
    method SnapshotNames(names: seq<Path>, before: seq<Path>, earlier: map<Path, Option<string>>)
      returns (r: Result<(seq<Path>, map<Path, Option<string>>), Failure>)
      requires SnapshotIs(Now(), before, earlier)
      ensures r.Ok? ==> r.value.0 == AppendNew(before, names) && SnapshotIs(Now(), r.value.0, r.value.1)
      ensures r.Ok? && AllReadable(before) ==> AllReadable(names)
      ensures r.Err? ==> r.error == SnapshotFailed && !AllReadable(names)
    {
      var order, snapshot, index := before, earlier, 0;
      while index < |names|
        invariant 0 <= index <= |names| && order == AppendNew(before, names[..index])
        invariant SnapshotIs(Now(), order, snapshot)
        invariant AllReadable(before) ==> AllReadable(names[..index])
      {
        var p := names[index];
        assert names[..index + 1][..index] == names[..index];
        assert names[..index + 1] == names[..index] + [p];
        AppendNewHas(before, names[..index]);
        if p !in snapshot {
          var text := None;
          if p in files {
            var read := ReadText(rules, Now(), p);
            if read.Err? {
              assert p in names;
              return Err(SnapshotFailed);
            }
            text := Some(read.value);
          }
          order, snapshot := order + [p], snapshot[p := text];
        }
        index := index + 1;
      }
      assert names[..|names|] == names;
      r := Ok((order, snapshot));
    }

    /** _snapshot_paths: an existing file that cannot be read stops the batch before it starts. */
    method SnapshotPaths(ops: seq<Operation>) returns (r: Result<(seq<Path>, map<Path, Option<string>>), Failure>)
      ensures r.Ok? ==> r.value.0 == OrderOf(rules, ops) && SnapshotIs(Now(), r.value.0, r.value.1)
      ensures r.Err? <==> Unreadable(rules, ops, Now())
      ensures r.Err? ==> r.error == SnapshotFailed
    {
      hide NamesOf, AppendNew, SnapshotIs, AllNamed;
      var order: seq<Path>, snapshot: map<Path, Option<string>>, index := [], map[], 0;
      NothingYet();
      while index < |ops|
        invariant 0 <= index <= |ops| && order == OrderOf(rules, ops[..index])
        invariant SnapshotIs(Now(), order, snapshot) && AllReadable(order)
      {
        assert ops[..index + 1][..index] == ops[..index];
        AppendNewHas(order, NamesOf(rules, ops[index]));
        var more := SnapshotNames(NamesOf(rules, ops[index]), order, snapshot);
        if more.Err? {
          NamedByOne(rules, ops, index);
          return Err(SnapshotFailed);
        }
        order, snapshot, index := more.value.0, more.value.1, index + 1;
      }
      assert ops[..|ops|] == ops;
      OrderHas(rules, ops);
      r := Ok((order, snapshot));
    }

    lemma NothingYet()
      ensures SnapshotIs(Now(), [], map[])
    {
    }

    /** _restore_snapshot: it gives up at the first file whose place was taken by a directory. */
    method RestoreSnapshot(order: seq<Path>, snapshot: map<Path, Option<string>>, ghost t: Tree) returns (ok: bool)
      requires WellFormed(Now()) && WellFormed(t) && SnapshotIs(t, order, snapshot) && t.dirs <= dirs
      modifies this
      ensures WellFormed(Now()) && dirs == old(dirs)
      ensures RestoredTo(order, Blocked(order, t, dirs), t, old(Now()), Now())
      ensures ok <==> Blocked(order, t, dirs) == |order|
    {
      hide Parents, WellFormed, RestoredTo;
      var index := 0;
      NothingRestored(order, t, Now());
      while index < |order|
        invariant 0 <= index <= |order| && WellFormed(Now()) && dirs == old(dirs)
        invariant RestoredTo(order, index, t, old(Now()), Now()) && index <= Blocked(order, t, dirs)
      {
        var p := order[index];
        assert p in order;
        RestoredMore(order, index, t, old(Now()), Now());
        if snapshot[p].None? {
          FileGone(Now(), p);
          files := files - {p};
        } else {
          if p in dirs {
            return false;
          }
          WrittenBack(Now(), t, p, snapshot[p].value);
          files := files[p := snapshot[p].value];
        }
        index := index + 1;
      }
      ok := true;
    }

    /** The loop of batch_edit_files, up to the failure that stops it or to the end. */
    method Play(ops: seq<Operation>, atomic: bool, dryRun: bool)
      returns (failed: Option<nat>, applied: nat, ghost trees: seq<Tree>, ghost results: seq<Option<bool>>)
      requires WellFormed(Now())
      modifies this
      ensures WellFormed(Now()) && StaysWithinAll(rules, ops, old(Now()), Now())
      ensures Played(rules, ops, dryRun, trees, results) && EndsRight(ops, atomic, results)
      ensures trees[0] == old(Now()) && trees[|results|] == Now()
      ensures failed == LastFailure(results) && applied == Count(results)
      ensures atomic && failed.Some? ==>
        failed.value + 1 == |results| && forall i :: 0 <= i < failed.value ==> results[i].Some?
    {
      hide WellFormed, StaysWithin, TurnIs, Openable;
      failed, applied, trees, results := None, 0, [Now()], [];
      var index := 0;
      while index < |ops|
        invariant 0 <= index <= |ops| && index == |results| && WellFormed(Now())
        invariant Played(rules, ops, dryRun, trees, results) && trees[0] == old(Now()) && trees[index] == Now()
        invariant StaysWithinAll(rules, ops, old(Now()), Now())
        invariant atomic ==> forall i :: 0 <= i < |results| ==> results[i].Some?
        invariant failed == LastFailure(results) && applied == Count(results)
      {
        ghost var before := Now();
        var result := RunOperation(ops[index], dryRun);
        StaysWithinMore(rules, ops, index, old(Now()), before, Now());
        PlayedMore(rules, ops, dryRun, trees, results, Now(), Answer(result));
        OneMore(results, Answer(result));
        trees, results := trees + [Now()], results + [Answer(result)];
        if result.Ok? {
          applied := applied + if result.value then 1 else 0;
        } else {
          failed := Some(index);
          if atomic {
            break;
          }
        }
        index := index + 1;
      }
      LastFailureIs(results);
    }

    /** batch_edit_files. The counts are those of the operations that succeeded and changed something. */
    method BatchEditFiles(ops: seq<Operation>, atomic: bool, dryRun: bool)
      returns (r: BatchResult, ghost trees: seq<Tree>, ghost results: seq<Option<bool>>)
      requires WellFormed(Now())
      modifies this
      ensures BatchIs(rules, ops, atomic, dryRun, old(Now()), Now(), r, trees, results)
      ensures WellFormed(Now()) && (dryRun ==> Now() == old(Now()))
      ensures r.Ok? && r.value.2 ==> files == old(files)
      ensures r.Ok? && atomic && !dryRun && r.value.0.Some? ==> r.value.2
      ensures r.Ok? && atomic && r.value.0.Some? ==>
        r.value.0.value + 1 == |results| && forall i :: 0 <= i < r.value.0.value ==> results[i].Some?
      ensures r == Err(TooMany) <==> |ops| > rules.maxOperations
      ensures SafeToRollBack(rules, ops, old(Now())) ==> r != Err(RestoreFailed)
      ensures StaysWithinAll(rules, ops, old(Now()), Now())
    {
      hide WellFormed, TurnIs, Openable, Played, OrderOf, RestoredTo, Blocked;
      results, trees := [], [];
      if |ops| > rules.maxOperations {
        return Err(TooMany), [], [];
      }
      var order: seq<Path>, snapshot: map<Path, Option<string>> := [], map[];
      if atomic && !dryRun {
        var snap := SnapshotPaths(ops);
        if snap.Err? {
          return Err(snap.error), [], [];
        }
        order, snapshot := snap.value.0, snap.value.1;
      }
      var failed, applied;
      failed, applied, trees, results := Play(ops, atomic, dryRun);
      if dryRun {
        DryRunsChangeNothing(rules, ops, trees, results, |results|);
      }
      if failed.Some? && atomic && !dryRun {
        ghost var last := Now();
        var restored := RestoreSnapshot(order, snapshot, old(Now()));
        AllRestored(rules, ops, old(Now()), last, Now());
        BlockedMeans(rules, ops, old(Now()), last);
        if SafeToRollBack(rules, ops, old(Now())) {
          NoPlaceTaken(rules, ops, old(Now()), last);
        }
        r := if restored then Ok((failed, applied, true)) else Err(RestoreFailed);
      } else {
        r := Ok((failed, applied, false));
      }
    }
  }

  lemma {:induction false} DryRunsChangeNothing(
    r: Rules, ops: seq<Operation>, trees: seq<Tree>, results: seq<Option<bool>>, i: nat)
    requires Played(r, ops, true, trees, results) && i <= |results|
    ensures trees[i] == trees[0]
  {
    if i > 0 {
      DryRunsChangeNothing(r, ops, trees, results, i - 1);
      assert TurnIs(r, ops[i - 1], true, trees[i - 1], trees[i], results[i - 1]);
    }
  }

  lemma NamedByOne(r: Rules, ops: seq<Operation>, i: nat)
    requires i < |ops|
    ensures forall p :: p in NamesOf(r, ops[i]) ==> p in AllNamed(r, ops)
  {
    hide Named, NamesOf;
    NamesAreNamed(r, ops[i]);
    assert ops[i] in ops;
  }

  /** A restore gets through exactly when no named file has become a directory. */
  lemma BlockedMeans(r: Rules, ops: seq<Operation>, start: Tree, last: Tree)
    ensures PlaceTaken(r, ops, start, last) <==> Blocked(OrderOf(r, ops), start, last.dirs) < |OrderOf(r, ops)|
  {
    hide AllNamed, OrderOf;
    OrderHas(r, ops);
    var order := OrderOf(r, ops);
    var k := Blocked(order, start, last.dirs);
    if k < |order| {
      assert order[k] in AllNamed(r, ops);
    }
  }

  /** A restore that gets through brings back every file that the batch names, and no restore touches another one. */
  lemma AllRestored(r: Rules, ops: seq<Operation>, start: Tree, last: Tree, end: Tree)
    requires StaysWithinAll(r, ops, start, last)
    requires RestoredTo(OrderOf(r, ops), Blocked(OrderOf(r, ops), start, last.dirs), start, last, end)
    ensures !PlaceTaken(r, ops, start, last) ==> end.files == start.files
    ensures forall p :: p !in AllNamed(r, ops) ==> SameFile(end, start, p)
  {
    hide AllNamed, AllOpenable, OrderOf, Blocked, PlaceTaken;
    OrderHas(r, ops);
    BlockedMeans(r, ops, start, last);
    var order := OrderOf(r, ops);
    var k := Blocked(order, start, last.dirs);
    assert order[..|order|] == order;
    forall p
      ensures p !in AllNamed(r, ops) || k == |order| ==> SameFile(end, start, p)
    {
      assert SameFile(end, if p in order[..k] then start else last, p);
      assert p in order[..k] ==> p in order;
    }
    if k == |order| {
      AllSame(end, start);
    }
  }

  lemma AllSame(a: Tree, b: Tree)
    requires forall p :: SameFile(a, b, p)
    ensures a.files == b.files
  {
    assert forall p :: p in a.files ==> SameFile(a, b, p);
    assert forall p :: p in b.files ==> SameFile(a, b, p);
  }

  /** A file can be written back where it was, unless its place is a directory now: its parents are still there. */
  lemma WrittenBack(now: Tree, t: Tree, p: Path, text: string)
    requires WellFormed(now) && WellFormed(t) && t.dirs <= now.dirs && p in t.files && p !in now.dirs
    ensures WellFormed(Tree(now.files[p := text], now.dirs))
  {
  }

  /** What a caller can check beforehand: no operation can make a directory where a named file is. */
  predicate SafeToRollBack(r: Rules, ops: seq<Operation>, t: Tree) {
    forall p :: p in AllNamed(r, ops) && p in t.files ==> p !in AllOpenable(r, ops)
  }

  /** A named file can only lose its place to a directory that the batch could open. */
  lemma NoPlaceTaken(r: Rules, ops: seq<Operation>, a: Tree, b: Tree)
    requires WellFormed(a) && StaysWithinAll(r, ops, a, b) && SafeToRollBack(r, ops, a)
    ensures !PlaceTaken(r, ops, a, b)
  {
    hide AllNamed, AllOpenable;
  }

  /** Rules that allow everything, with two names. */
  const PERMISSIVE := Rules(
    (name: string) => if name == "a" then Some(["a"]) else if name == "a/b" then Some(["a", "b"]) else None,
    (p: Path) => true, (p: Path) => true, (text: string) => true, (text: string) => true,
    (text: string) => text, (text: string) => text, false, true, 3)

  /** Delete a file, create another one below its name, and fail. */
  function NoWayBack(text: string): seq<Operation> {
    [DeleteFile("a", None), CreateFile("a/b", text, false), Unsupported([])]
  }

  lemma FileIsDeleted(text: string, t: Tree, result: Option<bool>)
    requires TurnIs(PERMISSIVE, DeleteFile("a", None), false, Tree(map[["a"] := text], {[]}), t, result)
    ensures result.Some? && t == Tree(map[], {[]})
  {
    hide Edited, Parents;
    assert ["a"][..0] == [];
  }

  lemma DirectoryIsMade(other: string, t: Tree, result: Option<bool>)
    requires other != ""
    requires TurnIs(PERMISSIVE, CreateFile("a/b", other, false), false, Tree(map[], {[]}), t, result)
    ensures result.Some? && ["a"] in t.dirs
  {
    hide Edited, Parents;
    assert ["a", "b"][..1] == ["a"];
    ParentsAreAbove(["a", "b"]);
  }

  /** The first two operations succeed, and a directory stands where the file was. */
  lemma PlaceIsTaken(text: string, other: string, trees: seq<Tree>, results: seq<Option<bool>>)
    requires other != "" && Played(PERMISSIVE, NoWayBack(other), false, trees, results)
    requires EndsRight(NoWayBack(other), true, results) && trees[0] == Tree(map[["a"] := text], {[]})
    ensures |results| == 3 && LastFailure(results) == Some(2) && ["a"] in trees[3].dirs
  {
    hide EffectIs, Reports, TextChangeSucceeds, Edited, Target;
    var ops := NoWayBack(other);
    assert TurnIs(PERMISSIVE, ops[0], false, trees[0], trees[1], results[0]);
    FileIsDeleted(text, trees[1], results[0]);
    assert TurnIs(PERMISSIVE, ops[1], false, trees[1], trees[2], results[1]);
    DirectoryIsMade(other, trees[2], results[1]);
    assert TurnIs(PERMISSIVE, ops[2], false, trees[2], trees[3], results[2]);
  }

  /**
   * The condition is needed: when a file is deleted and another one created below its name, the
   * batch can no longer be rolled back, because the name is a directory now.
   */
  method RollbackCanFail(text: string, other: string) returns (r: BatchResult)
    requires other != ""
    ensures r == Err(RestoreFailed)
  {
    ShortPaths();
    var ops := NoWayBack(other);
    var workspace := new Workspace(PERMISSIVE, map[["a"] := text], {[]});
    ghost var start := workspace.Now();
    ghost var trees, results;
    r, trees, results := workspace.BatchEditFiles(ops, true, false);
    assert !Unreadable(PERMISSIVE, ops, start);
    PlaceIsTaken(text, other, trees, results);
    assert ops[0] in ops && ["a"] in Named(PERMISSIVE, ops[0]);
    assert PlaceTaken(PERMISSIVE, ops, start, trees[3]) by {
      assert ["a"] in AllNamed(PERMISSIVE, ops) && ["a"] in start.files;
    }
  }

  lemma ShortPaths()
    ensures forall d, c :: Above(d, [c]) <==> d == []
    ensures forall d, b, c :: Above(d, [b, c]) <==> d == [] || d == [b]
    ensures forall d :: !Above(d, [])
  {
    forall d, b, c
      ensures Above(d, [b, c]) <==> d == [] || d == [b]
    {
      assert [b, c][..1] == [b];
    }
  }

  lemma DirsAdded(t: Tree, p: Path)
    requires WellFormed(t) && forall d :: d in Parents(p) + {p} ==> d !in t.files
    ensures WellFormed(Tree(t.files, t.dirs + Parents(p) + {p}))
  {
    ParentsAreAbove(p);
    forall q, d | (q in t.files || q in t.dirs + Parents(p) + {p}) && Above(d, q)
      ensures d in t.dirs + Parents(p) + {p}
    {
      if q in Parents(p) + {p} {
        assert q == p || Above(q, p);
        assert Above(d, p);
      }
    }
  }

  lemma ParentsOfParent(p: Path)
    requires p != []
    ensures Parents(p) == Parents(p[..|p| - 1]) + {p[..|p| - 1]}
  {
    var q := p[..|p| - 1];
    ParentsAreAbove(p);
    ParentsAreAbove(q);
    forall d
      ensures Above(d, p) <==> Above(d, q) || d == q
    {
      if Above(d, p) && |d| == |q| {
        assert d == q;
      }
    }
  }
}
