/**
 Folder permissions inherited from ancestors: the plain walk, and the cached form that must agree.
 The parent map may be any finite map, cyclic ones included: what ends on them is said exactly.
 */
module Permissions {
  import opened Basics

  type Folder = string

  /** What has_access does: answer, or raise KeyError on a folder the parent map does not know. */
  datatype Answer = Yes | No | KeyError

  /** Parent of each folder; None at a root. */
  type Parents = map<Folder, Option<Folder>>

  ghost predicate HasParent(parent: Parents, f: Folder, p: Folder) {
    f in parent && parent[f] == Some(p)
  }

  // --- the parent map -----------------------------------------------------------------------

  /** The k-th folder on the way up from f, f itself being the 0-th. */
  ghost function Up(parent: Parents, f: Folder, k: nat): Option<Folder>
    decreases k
  {
    if k == 0 then Some(f)
    else if f in parent && parent[f].Some? then Up(parent, parent[f].value, k - 1)
    else None
  }

  lemma {:induction false} UpPlus(parent: Parents, f: Folder, j: nat, k: nat)
    requires Up(parent, f, j).Some?
    ensures Up(parent, f, j + k) == Up(parent, Up(parent, f, j).value, k)
    decreases j
  {
    if j > 0 {
      UpPlus(parent, parent[f].value, j - 1, k);
    }
  }

  lemma {:induction false} UpBefore(parent: Parents, f: Folder, j: nat, k: nat)
    requires j <= k && Up(parent, f, k).Some?
    ensures Up(parent, f, j).Some?
    decreases j
  {
    if j > 0 {
      UpBefore(parent, parent[f].value, j - 1, k - 1);
    }
  }

  /** a is f or one of its ancestors. */
  ghost predicate Above(parent: Parents, a: Folder, f: Folder) {
    exists k :: Up(parent, f, k) == Some(a)
  }

  /** f is its own proper ancestor. */
  ghost predicate OnCycle(parent: Parents, f: Folder) {
    exists k :: k >= 1 && Up(parent, f, k) == Some(f)
  }

  lemma AboveParent(parent: Parents, a: Folder, f: Folder, p: Folder)
    requires HasParent(parent, f, p)
    ensures Above(parent, a, f) <==> a == f || Above(parent, a, p)
  {
    if a == f {
      assert Up(parent, f, 0) == Some(a);
    }
    if Above(parent, a, p) {
      var k: nat :| Up(parent, p, k) == Some(a);
      assert Up(parent, f, k + 1) == Some(a);
    }
    if a != f && Above(parent, a, f) {
      var k: nat :| Up(parent, f, k) == Some(a);
      assert Up(parent, p, k - 1) == Some(a);
    }
  }

  /** Round a cycle the way up goes on for ever. */
  lemma {:induction false} CycleGoesOn(parent: Parents, c: Folder, period: nat, k: nat)
    requires period >= 1 && Up(parent, c, period) == Some(c)
    ensures Up(parent, c, k).Some?
    decreases k
  {
    if k <= period {
      UpBefore(parent, c, k, period);
    } else {
      UpPlus(parent, c, period, k - period);
      CycleGoesOn(parent, c, period, k - period);
    }
  }

  // --- the walk -----------------------------------------------------------------------------

  /** The ancestor walk of at most n folders; None while it has not ended. */
  ghost function Walk(parent: Parents, access: set<Folder>, f: Folder, n: nat): Option<Answer>
    decreases n
  {
    if n == 0 then None
    else if f in access then Some(Yes)
    else if f !in parent then Some(KeyError)
    else match parent[f]
      case None => Some(No)
      case Some(p) => Walk(parent, access, p, n - 1)
  }

  /** The reference answer: what the walk ends with. */
  ghost predicate Answers(parent: Parents, access: set<Folder>, f: Folder, a: Answer) {
    exists n :: Walk(parent, access, f, n) == Some(a)
  }

  ghost predicate Ends(parent: Parents, access: set<Folder>, f: Folder) {
    exists n :: Walk(parent, access, f, n).Some?
  }

  lemma {:induction false} WalkLonger(parent: Parents, access: set<Folder>, f: Folder, n: nat, m: nat)
    requires Walk(parent, access, f, n).Some? && n <= m
    ensures Walk(parent, access, f, m) == Walk(parent, access, f, n)
    decreases n
  {
    if f !in access && f in parent && parent[f].Some? {
      WalkLonger(parent, access, parent[f].value, n - 1, m - 1);
    }
  }

  lemma AnswerIsUnique(parent: Parents, access: set<Folder>, f: Folder, a: Answer, b: Answer)
    requires Answers(parent, access, f, a) && Answers(parent, access, f, b)
    ensures a == b
  {
    var n: nat :| Walk(parent, access, f, n) == Some(a);
    var m: nat :| Walk(parent, access, f, m) == Some(b);
    if n <= m {
      WalkLonger(parent, access, f, n, m);
    } else {
      WalkLonger(parent, access, f, m, n);
    }
  }

  /** A folder granted on the way up ends the walk with Yes, there or before. */
  lemma {:induction false} GrantEndsWalk(parent: Parents, access: set<Folder>, f: Folder, k: nat)
    requires Up(parent, f, k).Some? && Up(parent, f, k).value in access
    ensures Walk(parent, access, f, k + 1) == Some(Yes)
    decreases k
  {
    if f !in access {
      GrantEndsWalk(parent, access, parent[f].value, k - 1);
    }
  }

  lemma {:induction false} YesMeetsGrant(parent: Parents, access: set<Folder>, f: Folder, n: nat) returns (k: nat)
    requires Walk(parent, access, f, n) == Some(Yes)
    ensures Up(parent, f, k).Some? && Up(parent, f, k).value in access
    decreases n
  {
    if f in access {
      k := 0;
    } else {
      k := YesMeetsGrant(parent, access, parent[f].value, n - 1);
      k := k + 1;
    }
  }

  ghost predicate GrantAbove(parent: Parents, access: set<Folder>, f: Folder) {
    exists a :: a in access && Above(parent, a, f)
  }

  /** Yes exactly when the folder or some ancestor was granted. */
  lemma YesIffGrantAbove(parent: Parents, access: set<Folder>, f: Folder)
    ensures Answers(parent, access, f, Yes) <==> GrantAbove(parent, access, f)
  {
    if Answers(parent, access, f, Yes) {
      var n: nat :| Walk(parent, access, f, n) == Some(Yes);
      var k := YesMeetsGrant(parent, access, f, n);
      assert Above(parent, Up(parent, f, k).value, f);
    }
    if GrantAbove(parent, access, f) {
      var a :| a in access && Above(parent, a, f);
      var k: nat :| Up(parent, f, k) == Some(a);
      GrantEndsWalk(parent, access, f, k);
    }
  }

  /** A walk goes on exactly past folders that are not granted and have parents. */
  lemma {:induction false} WalkGoesOn(parent: Parents, access: set<Folder>, f: Folder, n: nat)
    requires forall k: nat :: k <= n ==> Up(parent, f, k).Some? && Up(parent, f, k).value !in access
    ensures Walk(parent, access, f, n) == None
    decreases n
  {
    if n > 0 {
      assert Up(parent, f, 0).value !in access && Up(parent, f, 1).Some?;
      var p := parent[f].value;
      forall k: nat | k <= n - 1 ensures Up(parent, p, k).Some? && Up(parent, p, k).value !in access {
        assert Up(parent, f, k + 1) == Up(parent, p, k);
      }
      WalkGoesOn(parent, access, p, n - 1);
    }
  }

  lemma {:induction false} TopEndsWalk(parent: Parents, access: set<Folder>, f: Folder, k: nat)
    requires Up(parent, f, k) == None
    ensures Walk(parent, access, f, k).Some?
    decreases k
  {
    if f !in access && f in parent && parent[f].Some? {
      TopEndsWalk(parent, access, parent[f].value, k - 1);
    }
  }

  /** A walk that does not end with Yes ends where the way up ends. */
  lemma {:induction false} WalkEndsAtTop(parent: Parents, access: set<Folder>, f: Folder, n: nat) returns (k: nat)
    requires Walk(parent, access, f, n).Some? && Walk(parent, access, f, n).value != Yes
    ensures Up(parent, f, k).Some? && Up(parent, f, k + 1) == None
    ensures Walk(parent, access, f, n) == Some(if Up(parent, f, k).value in parent then No else KeyError)
    decreases n
  {
    if f in parent && parent[f].Some? {
      k := WalkEndsAtTop(parent, access, parent[f].value, n - 1);
      k := k + 1;
    } else {
      k := 0;
    }
  }

  /** Where the way up from f ends: at a folder with no parent in the map. */
  ghost predicate Top(parent: Parents, f: Folder, top: Folder) {
    Above(parent, top, f) && (top in parent ==> parent[top] == None)
  }

  lemma TopIsUnique(parent: Parents, f: Folder, j: nat, k: nat)
    requires Up(parent, f, j).Some? && Up(parent, f, j + 1) == None
    requires Up(parent, f, k).Some? && Up(parent, f, k + 1) == None
    ensures j == k
  {
    if j < k {
      UpBefore(parent, f, j + 1, k);
    } else if k < j {
      UpBefore(parent, f, k + 1, j);
    }
  }

  lemma TopIsLast(parent: Parents, f: Folder, k: nat)
    requires Up(parent, f, k).Some?
    ensures var top := Up(parent, f, k).value; Up(parent, f, k + 1) == None <==> top in parent ==> parent[top] == None
  {
    UpPlus(parent, f, k, 1);
  }

  /** Without a grant above, the walk ends at the top: No at a root of the map, KeyError outside the map. */
  lemma TopAnswers(parent: Parents, access: set<Folder>, f: Folder, top: Folder)
    requires !GrantAbove(parent, access, f) && Top(parent, f, top)
    ensures Answers(parent, access, f, if top in parent then No else KeyError)
  {
    var k: nat :| Up(parent, f, k) == Some(top);
    TopIsLast(parent, f, k);
    TopEndsWalk(parent, access, f, k + 1);
    YesIffGrantAbove(parent, access, f);
    var j := WalkEndsAtTop(parent, access, f, k + 1);
    TopIsUnique(parent, f, j, k);
  }

  lemma AnswerNamesTop(parent: Parents, access: set<Folder>, f: Folder, a: Answer)
    requires Answers(parent, access, f, a) && a != Yes
    ensures !GrantAbove(parent, access, f) && exists top :: Top(parent, f, top) && (top in parent <==> a == No)
  {
    YesIffGrantAbove(parent, access, f);
    if GrantAbove(parent, access, f) {
      AnswerIsUnique(parent, access, f, a, Yes);
    }
    var n: nat :| Walk(parent, access, f, n) == Some(a);
    var k := WalkEndsAtTop(parent, access, f, n);
    TopIsLast(parent, f, k);
    assert Top(parent, f, Up(parent, f, k).value);
  }

  /** No exactly when nothing above was granted and the way up ends at a root. */
  lemma NoIffUngrantedRoot(parent: Parents, access: set<Folder>, f: Folder)
    ensures Answers(parent, access, f, No) <==>
            !GrantAbove(parent, access, f) && exists top :: Top(parent, f, top) && top in parent
  {
    if Answers(parent, access, f, No) {
      AnswerNamesTop(parent, access, f, No);
    }
    if top :| !GrantAbove(parent, access, f) && Top(parent, f, top) && top in parent {
      TopAnswers(parent, access, f, top);
    }
  }

  /** KeyError exactly when nothing above was granted and the way up ends at a folder the map lacks. */
  lemma KeyErrorIffUnknownTop(parent: Parents, access: set<Folder>, f: Folder)
    ensures Answers(parent, access, f, KeyError) <==>
            !GrantAbove(parent, access, f) && exists top :: Top(parent, f, top) && top !in parent
  {
    if Answers(parent, access, f, KeyError) {
      AnswerNamesTop(parent, access, f, KeyError);
    }
    if top :| !GrantAbove(parent, access, f) && Top(parent, f, top) && top !in parent {
      TopAnswers(parent, access, f, top);
    }
  }

  lemma {:induction false} FitsIn(s: seq<Folder>, within: set<Folder>)
    requires Distinct(s) && forall i :: 0 <= i < |s| ==> s[i] in within
    ensures |s| <= |within|
    decreases |s|
  {
    if s != [] {
      var last := |s| - 1;
      FitsIn(s[..last], within - {s[last]});
    }
  }

  /** A way up longer than the map is large goes round a cycle. */
  lemma LongWayUpMeetsCycle(parent: Parents, f: Folder) returns (c: Folder)
    requires Up(parent, f, |parent| + 1).Some?
    ensures Above(parent, c, f) && OnCycle(parent, c)
  {
    var n := |parent| + 1;
    forall k: nat | k <= n ensures Up(parent, f, k).Some? {
      UpBefore(parent, f, k, n);
    }
    var way := seq(n, k requires 0 <= k < n => Up(parent, f, k).value);
    forall k | 0 <= k < n ensures way[k] in parent.Keys {
      UpPlus(parent, f, k, 1);
    }
    assert |parent.Keys| == |parent|;
    if Distinct(way) {
      FitsIn(way, parent.Keys);
    }
    var i, j :| 0 <= i < j < n && way[i] == way[j];
    c := way[i];
    UpPlus(parent, f, i, j - i);
    assert Up(parent, c, j - i) == Some(c);
    assert Up(parent, f, i) == Some(c);
  }

  ghost predicate LeadsIntoCycle(parent: Parents, f: Folder) {
    exists c :: Above(parent, c, f) && OnCycle(parent, c)
  }

  /** Exactly when the walk ends: a grant lies on it, or it leads into no cycle. */
  lemma WalkEndsIff(parent: Parents, access: set<Folder>, f: Folder)
    ensures Ends(parent, access, f) <==> GrantAbove(parent, access, f) || !LeadsIntoCycle(parent, f)
  {
    YesIffGrantAbove(parent, access, f);
    if GrantAbove(parent, access, f) {
      assert Answers(parent, access, f, Yes);
    } else if LeadsIntoCycle(parent, f) {
      forall n ensures Walk(parent, access, f, n) == None {
        forall k: nat | k <= n ensures Up(parent, f, k).Some? && Up(parent, f, k).value !in access {
          WayUpGoesOn(parent, f, k);
          assert Above(parent, Up(parent, f, k).value, f);
        }
        WalkGoesOn(parent, access, f, n);
      }
    } else {
      var n := |parent| + 1;
      if Up(parent, f, n).Some? {
        var c := LongWayUpMeetsCycle(parent, f);
      }
      TopEndsWalk(parent, access, f, n);
    }
  }

  lemma WayUpGoesOn(parent: Parents, f: Folder, k: nat)
    requires LeadsIntoCycle(parent, f)
    ensures Up(parent, f, k).Some?
  {
    var c :| Above(parent, c, f) && OnCycle(parent, c);
    var j: nat :| Up(parent, f, j) == Some(c);
    var period: nat :| period >= 1 && Up(parent, c, period) == Some(c);
    if k <= j {
      UpBefore(parent, f, k, j);
    } else {
      UpPlus(parent, f, j, k - j);
      CycleGoesOn(parent, c, period, k - j);
    }
  }

  /** On an acyclic map every folder has its answer. */
  lemma AcyclicAnswers(parent: Parents, access: set<Folder>, f: Folder) returns (a: Answer)
    requires forall g :: !OnCycle(parent, g)
    ensures Answers(parent, access, f, a)
  {
    WalkEndsIff(parent, access, f);
    var n: nat :| Walk(parent, access, f, n).Some?;
    a := Walk(parent, access, f, n).value;
  }

  /** A change of one grant is felt below it only. */
  lemma {:induction false} ChangeFeltBelow(parent: Parents, access: set<Folder>, access': set<Folder>, g: Folder,
                                           f: Folder, n: nat)
    requires !Above(parent, g, f) && forall x :: x != g ==> (x in access <==> x in access')
    ensures Walk(parent, access', f, n) == Walk(parent, access, f, n)
    decreases n
  {
    assert Up(parent, f, 0) == Some(f);
    if n > 0 && f !in access && f in parent && parent[f].Some? {
      AboveParent(parent, g, f, parent[f].value);
      ChangeFeltBelow(parent, access, access', g, parent[f].value, n - 1);
    }
  }

  // --- the plain tier -----------------------------------------------------------------------

  class SimplePermissions {
    const parent: Parents
    var access: set<Folder>

    constructor (parent: Parents)
      ensures this.parent == parent && access == {}
    {
      this.parent, access := parent, {};
    }

    method AddAccess(folder: Folder)
      modifies this
      ensures access == old(access) + {folder}
    {
      access := access + {folder};
    }

    method RemoveAccess(folder: Folder)
      modifies this
      ensures access == old(access) - {folder}
    {
      access := access - {folder};
    }

    method HasAccess(folder: Folder) returns (r: Answer)
      requires Ends(parent, access, folder)
      ensures Answers(parent, access, folder, r)
    {
      r := WalkUp(parent, access, folder);
    }
  }

  /** The walk as a loop. */
  method WalkUp(parent: Parents, access: set<Folder>, folder: Folder) returns (r: Answer)
    requires Ends(parent, access, folder)
    ensures Answers(parent, access, folder, r)
  {
    ghost var n: nat :| Walk(parent, access, folder, n).Some?;
    ghost var left := n;
    var curr := Some(folder);
    while curr.Some?
      invariant 0 <= left <= n && Walk(parent, access, folder, n).Some?
      invariant Walk(parent, access, folder, n) == WalkFrom(parent, access, curr, left)
      decreases left
    {
      if curr.value in access {
        return Yes;
      }
      if curr.value !in parent {
        return KeyError;
      }
      curr := parent[curr.value];
      left := left - 1;
    }
    return No;
  }

  ghost function WalkFrom(parent: Parents, access: set<Folder>, curr: Option<Folder>, n: nat): Option<Answer> {
    match curr
    case Some(f) => Walk(parent, access, f, n)
    case None => Some(No)
  }

  // --- the cached tier ----------------------------------------------------------------------

  type Children = map<Folder, seq<Folder>>

  ghost predicate IsChild(children: Children, p: Folder, f: Folder) {
    p in children && f in children[p]
  }

  /** The child map is the parent map inverted, over the folders in known. */
  ghost predicate Inverts(parent: Parents, known: set<Folder>, children: Children) {
    (forall p, f {:trigger IsChild(children, p, f)} ::
      IsChild(children, p, f) <==> f in known && HasParent(parent, f, p)) &&
    forall p :: p in children ==> Distinct(children[p])
  }

  function Siblings(children: Children, p: Folder): seq<Folder> {
    if p in children then children[p] else []
  }

  lemma AddChild(parent: Parents, known: set<Folder>, children: Children, f: Folder, p: Folder)
    requires Inverts(parent, known, children) && f !in known && HasParent(parent, f, p)
    ensures Inverts(parent, known + {f}, children[p := Siblings(children, p) + [f]])
  {
    var kids := Siblings(children, p);
    var children' := children[p := kids + [f]];
    assert f !in kids by {
      if f in kids { assert IsChild(children, p, f); }
    }
    forall q, g {:trigger IsChild(children', q, g)}
      ensures IsChild(children', q, g) <==> g in known + {f} && HasParent(parent, g, q)
    {
      assert IsChild(children, q, g) <==> g in known && HasParent(parent, g, q);
    }
  }

  lemma SkipRoot(parent: Parents, known: set<Folder>, children: Children, f: Folder)
    requires Inverts(parent, known, children) && f in parent && parent[f] == None
    ensures Inverts(parent, known + {f}, children)
  {
    forall q, g {:trigger IsChild(children, q, g)}
      ensures IsChild(children, q, g) <==> g in known + {f} && HasParent(parent, g, q)
    {
    }
  }

  /** What the invalidation has reached: the root of the subtree, and children of folders popped before. */
  ghost predicate Reached(parent: Parents, root: Folder, popped: set<Folder>, x: Folder) {
    Above(parent, root, x) && (x == root || (x in parent && parent[x].Some? && parent[x].value in popped))
  }

  /** A child of a folder popped only now has not been reached before, the root not being on a cycle. */
  lemma ChildIsNew(parent: Parents, root: Folder, popped: set<Folder>, node: Folder, c: Folder)
    requires !OnCycle(parent, root) && Above(parent, root, node) && node !in popped && HasParent(parent, c, node)
    ensures !Reached(parent, root, popped, c) && c != node && Reached(parent, root, popped + {node}, c)
  {
    AboveParent(parent, root, c, node);
    if c == root || c == node {
      ClosesCycle(parent, root, node, c);
    }
  }

  lemma ClosesCycle(parent: Parents, root: Folder, node: Folder, c: Folder)
    requires Above(parent, root, node) && HasParent(parent, c, node) && (c == root || c == node)
    ensures OnCycle(parent, root)
  {
    var k: nat :| Up(parent, node, k) == Some(root);
    if c == node {
      SelfParent(parent, node, k);
    }
    assert Up(parent, root, k + 1) == Some(root);
  }

  lemma {:induction false} SelfParent(parent: Parents, f: Folder, k: nat)
    requires HasParent(parent, f, f)
    ensures Up(parent, f, k) == Some(f)
    decreases k
  {
    if k > 0 {
      SelfParent(parent, f, k - 1);
    }
  }

  /** Reached and closed under children: the whole subtree. */
  lemma {:induction false} SubtreeIsPopped(parent: Parents, children: Children, root: Folder, popped: set<Folder>,
                                           f: Folder, k: nat)
    requires Inverts(parent, parent.Keys, children) && root in popped && Up(parent, f, k) == Some(root)
    requires forall p, c {:trigger IsChild(children, p, c)} :: p in popped && IsChild(children, p, c) ==> c in popped
    ensures f in popped
    decreases k
  {
    if k > 0 {
      var p := parent[f].value;
      SubtreeIsPopped(parent, children, root, popped, p, k - 1);
      assert IsChild(children, p, f);
    }
  }

  /** Where the invalidation of root's subtree stands, between two pops. */
  ghost predicate Sweeping(parent: Parents, children: Children, root: Folder, queue: seq<Folder>, popped: set<Folder>) {
    Distinct(queue) && (root in popped || root in queue) &&
    (forall x :: x in queue ==> x !in popped && x in parent.Keys + {root} && Reached(parent, root, popped, x)) &&
    (forall x :: x in popped ==> Reached(parent, root, popped, x)) &&
    forall p, c {:trigger IsChild(children, p, c)} ::
      p in popped && IsChild(children, p, c) ==> c in popped || c in queue
  }

  /** The queue after one pop and its pushes. */
  function PopAndPush(children: Children, queue: seq<Folder>): seq<Folder>
    requires queue != []
  {
    queue[..|queue| - 1] + Siblings(children, queue[|queue| - 1])
  }

  /** Popping the last folder of the queue and pushing its children keeps the sweep going. */
  lemma PopOne(parent: Parents, children: Children, root: Folder, queue: seq<Folder>, popped: set<Folder>)
    requires !OnCycle(parent, root) && Inverts(parent, parent.Keys, children) && queue != []
    requires Sweeping(parent, children, root, queue, popped)
    ensures Sweeping(parent, children, root, PopAndPush(children, queue), popped + {queue[|queue| - 1]})
  {
    var node := queue[|queue| - 1];
    var left, kids := queue[..|queue| - 1], Siblings(children, node);
    var queue', popped' := left + kids, popped + {node};
    forall c | c in kids
      ensures !Reached(parent, root, popped, c) && c != node && Reached(parent, root, popped', c)
      ensures c in parent.Keys && c !in popped
    {
      assert IsChild(children, node, c) && HasParent(parent, c, node);
      ChildIsNew(parent, root, popped, node, c);
    }
    assert Distinct(queue') by {
      forall i, j | 0 <= i < j < |queue'| ensures queue'[i] != queue'[j] {
        if i < |left| <= j { assert queue[i] in queue && queue'[j] in kids; }
      }
    }
    forall x | x in queue'
      ensures x !in popped' && x in parent.Keys + {root} && Reached(parent, root, popped', x)
    {
      if x in left { assert x in queue; }
    }
    assert root in popped' || root in queue' by {
      if root in queue && root != node { assert root in left; }
    }
    forall p, c {:trigger IsChild(children, p, c)} | p in popped' && IsChild(children, p, c)
      ensures c in popped' || c in queue'
    {
      if p != node && c in queue && c != node { assert c in left; }
      if p == node { assert c in kids; }
    }
  }

  /** An empty queue: the popped folders are exactly the subtree. */
  lemma SweptIsSubtree(parent: Parents, children: Children, root: Folder, popped: set<Folder>)
    requires Inverts(parent, parent.Keys, children) && Sweeping(parent, children, root, [], popped)
    ensures forall f :: f in popped <==> Above(parent, root, f)
  {
    forall f | Above(parent, root, f) ensures f in popped {
      var k: nat :| Up(parent, f, k) == Some(root);
      SubtreeIsPopped(parent, children, root, popped, f, k);
    }
  }

  /** The queue after n pops, or fewer if it is empty before. */
  ghost function Sweep(children: Children, queue: seq<Folder>, n: nat): seq<Folder>
    decreases n
  {
    if n == 0 || queue == [] then queue else Sweep(children, PopAndPush(children, queue), n - 1)
  }

  /** Exactly when the sweep of a subtree ends: its root is on no cycle. */
  lemma SweepEndsIff(parent: Parents, children: Children, root: Folder)
    requires Inverts(parent, parent.Keys, children)
    ensures (exists n :: Sweep(children, [root], n) == []) <==> !OnCycle(parent, root)
  {
    if OnCycle(parent, root) {
      assert Up(parent, root, 0) == Some(root);
      assert Circles(parent, root, root) && root in [root];
      forall n ensures Sweep(children, [root], n) != [] {
        CycleKeepsSweeping(parent, children, root, [root], n);
      }
    } else {
      assert Up(parent, root, 0) == Some(root);
      var n := SweepEnds(parent, children, root, [root], {});
    }
  }

  lemma {:induction false} SweepEnds(parent: Parents, children: Children, root: Folder, queue: seq<Folder>,
                                     popped: set<Folder>) returns (n: nat)
    requires !OnCycle(parent, root) && Inverts(parent, parent.Keys, children)
    requires Sweeping(parent, children, root, queue, popped)
    ensures Sweep(children, queue, n) == []
    decreases parent.Keys + {root} - popped
  {
    if queue == [] {
      n := 0;
    } else {
      var node := queue[|queue| - 1];
      assert node in queue;
      PopOne(parent, children, root, queue, popped);
      n := SweepEnds(parent, children, root, PopAndPush(children, queue), popped + {node});
      n := n + 1;
    }
  }

  /** x is on the cycle through root. */
  ghost predicate Circles(parent: Parents, root: Folder, x: Folder) {
    Above(parent, x, root) && Above(parent, root, x)
  }

  /** Popping a folder of the cycle pushes its child on the cycle. */
  lemma NextOnCycle(parent: Parents, root: Folder, x: Folder) returns (c: Folder)
    requires OnCycle(parent, root) && Circles(parent, root, x)
    ensures HasParent(parent, c, x) && Circles(parent, root, c)
  {
    var k: nat;
    if x == root {
      k :| k >= 1 && Up(parent, root, k) == Some(root);
    } else {
      k :| Up(parent, root, k) == Some(x);
    }
    UpBefore(parent, root, k - 1, k);
    c := Up(parent, root, k - 1).value;
    UpPlus(parent, root, k - 1, 1);
    assert Above(parent, c, root);
    AboveParent(parent, root, c, x);
  }

  lemma {:induction false} CycleKeepsSweeping(parent: Parents, children: Children, root: Folder, queue: seq<Folder>,
                                              n: nat)
    requires OnCycle(parent, root) && Inverts(parent, parent.Keys, children)
    requires exists x :: x in queue && Circles(parent, root, x)
    ensures Sweep(children, queue, n) != []
    decreases n
  {
    if n > 0 {
      var x :| x in queue && Circles(parent, root, x);
      var left, node := queue[..|queue| - 1], queue[|queue| - 1];
      var queue' := PopAndPush(children, queue);
      if x == node {
        var c := NextOnCycle(parent, root, x);
        assert IsChild(children, x, c);
        assert c in queue';
      } else {
        assert x in left && x in queue';
      }
      CycleKeepsSweeping(parent, children, root, queue', n - 1);
    }
  }

  /** The cache without the answers of g's subtree. */
  ghost function Outside(parent: Parents, cache: map<Folder, bool>, g: Folder): map<Folder, bool> {
    map f | f in cache && !Above(parent, g, f) :: cache[f]
  }

  ghost function ToAnswer(b: bool): Answer { if b then Yes else No }

  ghost predicate Faithful(parent: Parents, access: set<Folder>, cache: map<Folder, bool>) {
    forall f :: f in cache ==> Answers(parent, access, f, ToAnswer(cache[f]))
  }

  /** After a change of the grant on g, the answers kept outside its subtree are still right. */
  lemma KeptIsFaithful(parent: Parents, access: set<Folder>, access': set<Folder>, cache: map<Folder, bool>, g: Folder)
    requires Faithful(parent, access, cache) && forall x :: x != g ==> (x in access <==> x in access')
    ensures Faithful(parent, access', Outside(parent, cache, g))
  {
    forall f | f in cache && !Above(parent, g, f)
      ensures Answers(parent, access', f, ToAnswer(cache[f]))
    {
      var n: nat :| Walk(parent, access, f, n) == Some(ToAnswer(cache[f]));
      ChangeFeltBelow(parent, access, access', g, f, n);
    }
  }

  class CachedPermissions {
    const parent: Parents
    const children: Children
    var access: set<Folder>
    var cache: map<Folder, bool>

    /** Every cached answer is the ancestor walk's. */
    ghost predicate Valid()
      reads this
    {
      Inverts(parent, parent.Keys, children) && Faithful(parent, access, cache)
    }

    constructor (parent: Parents)
      ensures Valid() && this.parent == parent && access == {} && cache == map[]
    {
      var inverted: Children := map[];
      var rest := parent.Keys;
      ghost var known: set<Folder> := {};
      while rest != {}
        invariant known + rest == parent.Keys && known !! rest && Inverts(parent, known, inverted)
        decreases rest
      {
        var f := Pick(rest);
        if parent[f].Some? {
          var p := parent[f].value;
          AddChild(parent, known, inverted, f, p);
          inverted := inverted[p := Siblings(inverted, p) + [f]];
        } else {
          SkipRoot(parent, known, inverted, f);
        }
        rest := rest - {f};
        known := known + {f};
      }
      assert known == parent.Keys;
      this.parent, children, access, cache := parent, inverted, {}, map[];
    }

    /** Clears exactly the cached answers of the folder and everything below it. */
    method InvalidateSubtree(folder: Folder)
      requires Inverts(parent, parent.Keys, children) && !OnCycle(parent, folder)
      modifies this`cache
      ensures cache == Outside(parent, old(cache), folder)
    {
      var queue := [folder];
      ghost var popped: set<Folder> := {};
      assert Up(parent, folder, 0) == Some(folder);
      while queue != []
        invariant Sweeping(parent, children, folder, queue, popped)
        invariant cache == old(cache) - popped
        decreases parent.Keys + {folder} - popped
      {
        var node := queue[|queue| - 1];
        PopOne(parent, children, folder, queue, popped);
        assert node in queue;
        cache := cache - {node};
        queue := PopAndPush(children, queue);
        popped := popped + {node};
      }
      SweptIsSubtree(parent, children, folder, popped);
    }

    method AddAccess(folder: Folder)
      requires Valid() && !OnCycle(parent, folder)
      modifies this
      ensures Valid() && access == old(access) + {folder}
    {
      access := access + {folder};
      InvalidateSubtree(folder);
      KeptIsFaithful(parent, old(access), access, old(cache), folder);
    }

    method RemoveAccess(folder: Folder)
      requires Valid() && !OnCycle(parent, folder)
      modifies this
      ensures Valid() && access == old(access) - {folder}
    {
      access := access - {folder};
      InvalidateSubtree(folder);
      KeptIsFaithful(parent, old(access), access, old(cache), folder);
    }

    /** The plain tier's answer, a KeyError included, whatever the cache holds. */
    method HasAccess(folder: Folder) returns (r: Answer)
      requires Valid() && Ends(parent, access, folder)
      modifies this`cache
      ensures Valid() && Answers(parent, access, folder, r)
    {
      if folder in cache {
        return if cache[folder] then Yes else No;
      }
      r := WalkUp(parent, access, folder);
      if r != KeyError {
        cache := cache[folder := r == Yes];
      }
    }
  }
}
