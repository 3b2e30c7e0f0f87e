/** The nodes of cJSON on the heap: doubly linked child lists, and copies of whole trees. */
module JsonList {
  import opened Options
  import opened JsonSpec

  const REFERENCE: bv32 := 256

  class Node {
    var next: Node?
    var prev: Node?
    var child: Node?
    var itemType: bv32
    var valueint: int
    /** A mantissa and a power of ten, as in JsonSpec. */
    var valuedouble: (int, int)
    var valuestring: Option<string>
    var name: Option<string>

    /** cJSON_New_Item: all zero. */
    constructor ()
      ensures next == null && prev == null && child == null
    {
      next, prev, child := null, null, null;
      itemType, valueint, valuedouble, valuestring, name := 0, 0, (0, 0), None, None;
    }
  }

  // ---------- Child lists ----------

  ghost function At(s: seq<Node>, i: int): Node? {
    if 0 <= i < |s| then s[i] else null
  }

  ghost predicate Distinct(s: seq<Node>) {
    forall i, j | 0 <= i < j < |s| :: s[i] != s[j]
  }

  /** The chain of s: null before its head and behind its tail. */
  ghost predicate Linked(s: seq<Node>)
    reads s
  {
    Distinct(s) && forall i {:trigger s[i].next} {:trigger s[i].prev} | 0 <= i < |s| ::
      s[i].next == At(s, i + 1) && s[i].prev == At(s, i - 1)
  }

  /** s are the children of parent, in order. */
  ghost predicate Children(parent: Node, s: seq<Node>)
    reads parent`child, s
  {
    parent.child == At(s, 0) && Linked(s)
  }

  /** In a chain of children each points to the next one and back, the first and the last to nothing on the outside, and
      no node stands twice. */
  lemma ChildrenMeans(parent: Node, s: seq<Node>)
    ensures Children(parent, s) <==>
            && (if s == [] then parent.child == null else parent.child == s[0] && s[0].prev == null && s[|s| - 1].next == null)
            && (forall i | 0 < i < |s| :: s[i - 1].next == s[i] && s[i].prev == s[i - 1])
            && (forall i, j | 0 <= i < j < |s| :: s[i] != s[j])
  {
    if (if s == [] then parent.child == null else parent.child == s[0] && s[0].prev == null && s[|s| - 1].next == null)
       && (forall i | 0 < i < |s| :: s[i - 1].next == s[i] && s[i].prev == s[i - 1])
    {
      forall i | 0 <= i < |s|
        ensures s[i].next == At(s, i + 1) && s[i].prev == At(s, i - 1)
      {
        assert i + 1 < |s| ==> s[i + 1 - 1].next == s[i + 1];
      }
    }
  }

  /** get_array_item. */
  method GetArrayItem(list: Node, index: int, ghost s: seq<Node>) returns (r: Node?)
    requires Children(list, s) && index >= 0
    ensures r == At(s, index)
  {
    r := list.child;
    var left := index;
    ghost var i := 0;
    while r != null && left > 0
      invariant 0 <= i <= |s| && r == At(s, i) && 0 <= left && left == index - i
      decreases left
    {
      left := left - 1;
      r := r.next;
      i := i + 1;
    }
  }

  /** cJSON_AddItemToArray: append. */
  method AddItemToArray(list: Node?, item: Node?, ghost s: seq<Node>)
    requires list != null && item != null ==> Children(list, s) && item !in s && item.next == null && item.prev == null
    modifies (if list != null then {list} else {})`child, (if item != null then {item} else {})`prev, s`next
    ensures list != null && item != null ==> Children(list, s + [item])
  {
    if item == null || list == null {
      return;
    }
    var child := list.child;
    if child == null {
      list.child := item;
    } else {
      ghost var i := 0;
      while child.next != null
        invariant 0 <= i < |s| && child == s[i]
        invariant Children(list, s)
        decreases |s| - i
      {
        child := child.next;
        i := i + 1;
      }
      child.next := item;
      item.prev := child;
    }
  }

  /** The neighbours of the removed child k point past it. */
  ghost predicate Bypassed(s: seq<Node>, k: nat)
    requires k < |s|
    reads s
  {
    Distinct(s) && forall i {:trigger s[i].next} {:trigger s[i].prev} | 0 <= i < |s| && i != k ::
      s[i].next == At(s, if i + 1 == k then k + 1 else i + 1)
      && s[i].prev == At(s, if i - 1 == k then k - 1 else i - 1)
  }

  ghost function Without<T>(s: seq<T>, k: nat): seq<T>
    requires k < |s|
  {
    s[..k] + s[k + 1..]
  }

  lemma AtWithout(s: seq<Node>, k: nat, j: int)
    requires k < |s|
    ensures At(Without(s, k), j) == At(s, if j < k then j else j + 1)
  {
  }

  lemma DistinctWithout(s: seq<Node>, k: nat)
    requires k < |s| && Distinct(s)
    ensures Distinct(Without(s, k))
  {
    forall i, j | 0 <= i < j < |s| - 1
      ensures Without(s, k)[i] != Without(s, k)[j]
    {
      AtWithout(s, k, i);
      AtWithout(s, k, j);
    }
  }

  lemma BypassedLinked(s: seq<Node>, k: nat)
    requires k < |s| && Bypassed(s, k)
    ensures Linked(Without(s, k)) && |Without(s, k)| == |s| - 1
  {
    var t := Without(s, k);
    DistinctWithout(s, k);
    forall i | 0 <= i < |t|
      ensures t[i].next == At(t, i + 1) && t[i].prev == At(t, i - 1)
    {
      AtWithout(s, k, i - 1);
      AtWithout(s, k, i);
      AtWithout(s, k, i + 1);
      hide Without;
      var m := if i < k then i else i + 1;
      assert t[i] == s[m];
    }
  }

  /** cJSON_DetachItemViaPointer on the child k of parent: remove. */
  method DetachItemViaPointer(parent: Node, item: Node, ghost s: seq<Node>, ghost k: nat) returns (r: Node)
    requires Children(parent, s) && k < |s| && s[k] == item
    modifies parent`child, s`next, s`prev
    ensures r == item && item.next == null && item.prev == null
    ensures Children(parent, Without(s, k))
  {
    if item.prev != null {
      item.prev.next := item.next;
    }
    if item.next != null {
      item.next.prev := item.prev;
    }
    if item == parent.child {
      parent.child := item.next;
    }
    item.prev := null;
    item.next := null;
    r := item;
    BypassedLinked(s, k);
    AtWithout(s, k, 0);
  }

  /** cJSON_DetachItemFromArray. */
  method DetachItemFromArray(list: Node, which: int, ghost s: seq<Node>) returns (r: Node?)
    requires Children(list, s)
    modifies list`child, s`next, s`prev
    ensures 0 <= which < |s| ==> (
      r == s[which] && s[which].next == null && s[which].prev == null && Children(list, Without(s, which)))
    ensures !(0 <= which < |s|) ==> r == null && Children(list, s)
  {
    if which < 0 {
      return null;
    }
    r := GetArrayItem(list, which, s);
    if r != null {
      r := DetachItemViaPointer(list, r, s, which);
    }
  }

  // ---------- Insertion ----------

  ghost function With<T>(s: seq<T>, k: nat, n: T): seq<T>
    requires k <= |s|
  {
    s[..k] + [n] + s[k..]
  }

  lemma AtWith(s: seq<Node>, k: nat, n: Node, j: int)
    requires k <= |s|
    ensures |With(s, k, n)| == |s| + 1
    ensures At(With(s, k, n), j) == if j == k then n else At(s, if j < k then j else j - 1)
  {
  }

  lemma DistinctWith(s: seq<Node>, k: nat, n: Node)
    requires k <= |s| && Distinct(s) && n !in s
    ensures Distinct(With(s, k, n))
  {
    forall i, j | 0 <= i < j < |With(s, k, n)|
      ensures With(s, k, n)[i] != With(s, k, n)[j]
    {
      AtWith(s, k, n, i);
      AtWith(s, k, n, j);
    }
  }

  /** The nodes of s, with a gap in front of k that n fills. */
  ghost predicate Spliced(s: seq<Node>, k: nat, n: Node)
    requires k < |s|
    reads s, n
  {
    Distinct(s) && n !in s && n.next == s[k] && n.prev == At(s, k - 1)
    && forall i {:trigger s[i].next} {:trigger s[i].prev} | 0 <= i < |s| ::
      s[i].next == (if i + 1 == k then n else At(s, i + 1))
      && s[i].prev == (if i == k then n else At(s, i - 1))
  }

  lemma SplicedLinked(s: seq<Node>, k: nat, n: Node)
    requires k < |s| && Spliced(s, k, n)
    ensures Linked(With(s, k, n))
  {
    var t := With(s, k, n);
    DistinctWith(s, k, n);
    forall i | 0 <= i < |t|
      ensures t[i].next == At(t, i + 1) && t[i].prev == At(t, i - 1)
    {
      AtWith(s, k, n, i - 1);
      AtWith(s, k, n, i);
      AtWith(s, k, n, i + 1);
      hide With;
      var m := if i < k then i else i - 1;
      assert i != k ==> t[i] == s[m];
    }
  }

  /** cJSON_InsertItemInArray: in front of the child which, or at the end. */
  method InsertItemInArray(list: Node, which: int, newitem: Node, ghost s: seq<Node>)
    requires Children(list, s) && newitem !in s
    requires which >= |s| ==> newitem.next == null && newitem.prev == null
    modifies list`child, newitem`next, newitem`prev, s`next, s`prev
    ensures Children(list,
              if which < 0 then s
              else if which < |s| then With(s, which, newitem)
              else s + [newitem])
  {
    if which < 0 {
      return;
    }
    var after := GetArrayItem(list, which, s);
    if after == null {
      AddItemToArray(list, newitem, s);
      return;
    }
    newitem.next := after;
    newitem.prev := after.prev;
    after.prev := newitem;
    if after == list.child {
      list.child := newitem;
    } else {
      newitem.prev.next := newitem;
    }
    SplicedLinked(s, which, newitem);
    AtWith(s, which, newitem, 0);
  }

  // ---------- Replacement ----------

  lemma AtUpdated(s: seq<Node>, k: nat, n: Node, j: int)
    requires k < |s|
    ensures At(s[k := n], j) == if j == k then n else At(s, j)
  {
  }

  /** n has taken the place of the child k. */
  ghost predicate Swapped(s: seq<Node>, k: nat, n: Node)
    requires k < |s|
    reads s, n
  {
    Distinct(s) && n !in s && n.next == At(s, k + 1) && n.prev == At(s, k - 1)
    && forall i {:trigger s[i].next} {:trigger s[i].prev} | 0 <= i < |s| && i != k ::
      s[i].next == (if i + 1 == k then n else At(s, i + 1))
      && s[i].prev == (if i - 1 == k then n else At(s, i - 1))
  }

  lemma SwappedLinked(s: seq<Node>, k: nat, n: Node)
    requires k < |s| && Swapped(s, k, n)
    ensures Linked(s[k := n])
  {
    var t := s[k := n];
    forall i | 0 <= i < |t|
      ensures t[i].next == At(t, i + 1) && t[i].prev == At(t, i - 1)
    {
      AtUpdated(s, k, n, i - 1);
      AtUpdated(s, k, n, i + 1);
      assert i != k ==> t[i] == s[i];
    }
  }

  /** cJSON_ReplaceItemViaPointer on the child k of parent: update. The replaced node is cut off before it is freed. */
  method ReplaceItemViaPointer(parent: Node, item: Node, replacement: Node?, ghost s: seq<Node>, ghost k: nat)
    returns (ok: bool)
    requires Children(parent, s) && k < |s| && s[k] == item
    requires replacement != null ==> replacement == item || replacement !in s
    modifies parent`child, (if replacement != null then {replacement} else {})`next
    modifies (if replacement != null then {replacement} else {})`prev, s`next, s`prev
    ensures ok == (replacement != null)
    ensures Children(parent, if replacement == null then s else s[k := replacement])
    ensures ok && replacement != item ==> item.next == null && item.prev == null
  {
    if replacement == null {
      return false;
    }
    if replacement == item {
      assert s[k := replacement] == s;
      return true;
    }
    replacement.next := item.next;
    replacement.prev := item.prev;
    if replacement.next != null {
      replacement.next.prev := replacement;
    }
    if replacement.prev != null {
      replacement.prev.next := replacement;
    }
    if parent.child == item {
      parent.child := replacement;
    }
    item.next := null;
    item.prev := null;
    ok := true;
    SwappedLinked(s, k, replacement);
  }

  /** cJSON_ReplaceItemInArray. Faults: behind the last child there is nothing to replace, and the code follows a null
      pointer. It does so exactly for such an index and a new item that is not null. */
  method ReplaceItemInArray(list: Node, which: int, newitem: Node?, ghost s: seq<Node>) returns (faults: bool)
    requires Children(list, s)
    requires newitem != null && 0 <= which < |s| ==> newitem == s[which] || newitem !in s
    modifies list`child, (if newitem != null then {newitem} else {})`next
    modifies (if newitem != null then {newitem} else {})`prev, s`next, s`prev
    ensures faults <==> which >= |s| && newitem != null
    ensures Children(list, if 0 <= which < |s| && newitem != null then s[which := newitem] else s)
  {
    if which < 0 {
      return false;
    }
    var item := GetArrayItem(list, which, s);
    if item == null {
      return newitem != null;
    }
    var ok := ReplaceItemViaPointer(list, item, newitem, s, which);
    faults := false;
  }

  // ---------- What the operations make of a list ----------

  /** Detaching what was inserted gives the sequence back, and inserting what was detached too. */
  lemma InsertDetach(s: seq<Node>, k: nat, n: Node)
    requires k <= |s|
    ensures Without(With(s, k, n), k) == s
    ensures k < |s| ==> With(Without(s, k), k, s[k]) == s
  {
  }

  /** So do the two calls: every link is as it was. */
  method InsertThenDetach(list: Node, which: nat, newitem: Node, ghost s: seq<Node>)
    requires Children(list, s) && newitem !in s
    requires which >= |s| ==> newitem.next == null && newitem.prev == null
    modifies list`child, newitem`next, newitem`prev, s`next, s`prev
    ensures Children(list, s) && list.child == old(list.child)
    ensures forall i | 0 <= i < |s| :: s[i].next == old(s[i].next) && s[i].prev == old(s[i].prev)
    ensures newitem.next == null && newitem.prev == null
  {
    hide With, Without;
    InsertItemInArray(list, which, newitem, s);
    ghost var k := if which < |s| then which else |s|;
    ghost var t := With(s, k, newitem);
    AppendIsWith(s, newitem);
    InsertDetach(s, k, newitem);
    AtWith(s, k, newitem, k);
    forall i | 0 <= i < |t|
      ensures t[i] == newitem || t[i] in s
    {
      InWith(s, k, newitem, i);
    }
    var r := DetachItemViaPointer(list, newitem, t, k);
  }

  /** And the other way round: a detached child goes back to its place. */
  method DetachThenInsert(list: Node, which: nat, ghost s: seq<Node>)
    requires Children(list, s) && which < |s|
    modifies list`child, s`next, s`prev
    ensures Children(list, s) && list.child == old(list.child)
    ensures forall i | 0 <= i < |s| :: s[i].next == old(s[i].next) && s[i].prev == old(s[i].prev)
  {
    hide With;
    InsertDetach(s, which, s[which]);
    NotInRest(s, which);
    AppendIsWith(Without(s, which), s[which]);
    var r := DetachItemFromArray(list, which, s);
    InsertItemInArray(list, which, r, Without(s, which));
  }

  lemma NotInRest(s: seq<Node>, k: nat)
    requires Distinct(s) && k < |s|
    ensures s[k] !in Without(s, k) && |Without(s, k)| == |s| - 1
    ensures forall n | n in Without(s, k) :: n in s
  {
  }

  lemma AppendIsWith<T>(s: seq<T>, x: T)
    ensures With(s, |s|, x) == s + [x]
  {
  }

  lemma InWith<T>(s: seq<T>, k: nat, x: T, i: nat)
    requires k <= |s| && i < |With(s, k, x)|
    ensures i <= |s| && With(s, k, x)[i] == if i == k then x else s[if i < k then i else i - 1]
  {
  }

  // ---------- Trees ----------

  /** The shape of a node and everything below it. */
  datatype Tree = Tree(node: Node, children: seq<Tree>)

  ghost function Roots(ts: seq<Tree>): (s: seq<Node>)
    ensures |s| == |ts|
  {
    seq(|ts|, i requires 0 <= i < |ts| => ts[i].node)
  }

  ghost function Nodes(t: Tree): set<Node>
    decreases t, 1
  {
    {t.node} + Below(t)
  }

  ghost function Below(t: Tree): (b: set<Node>)
    ensures forall i | 0 <= i < |t.children| :: Nodes(t.children[i]) <= b
    decreases t, 0
  {
    set c, n | c in t.children && n in Nodes(c) :: n
  }

  ghost predicate Apart(ts: seq<Tree>) {
    forall i, j | 0 <= i < j < |ts| :: Nodes(ts[i]) !! Nodes(ts[j])
  }

  /** The heap below t.node is the tree t: chains of children, and no node twice. */
  ghost predicate IsTree(t: Tree)
    reads t.node`child, Below(t)
    decreases t
  {
    RootsBelow(t);
    Children(t.node, Roots(t.children))
    && t.node !in Below(t)
    && Apart(t.children)
    && forall i | 0 <= i < |t.children| :: IsTree(t.children[i])
  }

  lemma RootsBelow(t: Tree)
    ensures forall n | n in Roots(t.children) :: n in Below(t)
  {
    forall i | 0 <= i < |t.children|
      ensures Roots(t.children)[i] in Below(t)
    {
      assert t.children[i].node in Nodes(t.children[i]);
    }
  }

  /** u's data is t's, without the mark of a reference. */
  ghost predicate SameData(a: Node, b: Node)
    reads {a, b}`itemType, {a, b}`valueint, {a, b}`valuedouble, {a, b}`valuestring, {a, b}`name
  {
    b.itemType == a.itemType & !REFERENCE
    && b.valueint == a.valueint && b.valuedouble == a.valuedouble
    && b.valuestring == a.valuestring && b.name == a.name
  }

  ghost predicate Copied(t: Tree, u: Tree)
    reads (Nodes(t) + Nodes(u))`itemType, (Nodes(t) + Nodes(u))`valueint, (Nodes(t) + Nodes(u))`valuedouble
    reads (Nodes(t) + Nodes(u))`valuestring, (Nodes(t) + Nodes(u))`name
    decreases t
  {
    SameData(t.node, u.node)
    && |t.children| == |u.children|
    && forall i | 0 <= i < |t.children| :: Copied(t.children[i], u.children[i])
  }

  lemma RootsPlus(us: seq<Tree>, u: Tree)
    ensures Roots(us + [u]) == Roots(us) + [u.node]
  {
  }

  lemma BelowPlus(newitem: Node, us: seq<Tree>, u: Tree)
    ensures Below(Tree(newitem, us + [u])) == Below(Tree(newitem, us)) + Nodes(u)
  {
    hide Nodes;
    var small, big := Below(Tree(newitem, us)), Below(Tree(newitem, us + [u]));
    forall n | n in big
      ensures n in small + Nodes(u)
    {
      var c :| c in us + [u] && n in Nodes(c);
      assert c == u || c in us;
    }
    forall n | n in small + Nodes(u)
      ensures n in big
    {
      if n in Nodes(u) {
        assert u in us + [u];
      } else {
        var c :| c in us && n in Nodes(c);
        assert c in us + [u];
      }
    }
  }

  lemma PartBelow(newitem: Node, us: seq<Tree>, i: nat)
    requires i < |us|
    ensures Nodes(us[i]) <= Below(Tree(newitem, us))
  {
  }

  lemma ApartPlus(newitem: Node, us: seq<Tree>, u: Tree)
    requires Apart(us) && Nodes(u) !! Below(Tree(newitem, us))
    ensures Apart(us + [u])
  {
    hide Nodes, Below;
    var all := us + [u];
    forall i, j | 0 <= i < j < |all|
      ensures Nodes(all[i]) !! Nodes(all[j])
    {
      PartBelow(newitem, us, i);
      if j < |us| {
        assert Nodes(us[i]) !! Nodes(us[j]);
      }
    }
  }

  /** A root lies neither below itself nor below a neighbour. */
  lemma RootApart(ts: seq<Tree>, i: nat, j: nat)
    requires Apart(ts) && i < |ts| && j < |ts| && IsTree(ts[i])
    ensures ts[j].node !in Below(ts[i])
  {
    assert ts[j].node in Nodes(ts[j]);
    assert i != j ==> Nodes(ts[i]) !! Nodes(ts[j]);
  }

  lemma RootNew(newitem: Node, us: seq<Tree>, n: Node)
    requires n !in Below(Tree(newitem, us))
    ensures n !in Roots(us) && forall i | 0 <= i < |us| :: n !in Below(us[i])
  {
    RootsBelow(Tree(newitem, us));
    forall i | 0 <= i < |us|
      ensures n !in Below(us[i])
    {
      assert Nodes(us[i]) <= Below(Tree(newitem, us));
    }
  }

  /** What a chain needs to stay one when a node is put behind its end. */
  lemma LinkedPlus(s: seq<Node>, n: Node)
    requires Distinct(s) && n !in s && n.next == null && n.prev == At(s, |s| - 1)
    requires forall i {:trigger s[i].next} {:trigger s[i].prev} | 0 <= i < |s| ::
      s[i].next == (if i + 1 == |s| then n else At(s, i + 1)) && s[i].prev == At(s, i - 1)
    ensures Linked(s + [n])
  {
    var t := s + [n];
    forall i | 0 <= i < |t|
      ensures t[i].next == At(t, i + 1) && t[i].prev == At(t, i - 1)
    {
      assert i < |s| ==> t[i] == s[i];
    }
  }

  /** One more copied child goes behind next, the last one so far. */
  method LinkCopy(newitem: Node, next: Node?, newchild: Node, ghost us: seq<Tree>, ghost u: Tree)
    requires IsTree(Tree(newitem, us)) && next == At(Roots(us), |us| - 1)
    requires u.node == newchild && IsTree(u) && newchild.next == null && newchild.prev == null
    requires newitem !in Nodes(u) && Nodes(u) !! Below(Tree(newitem, us))
    modifies newitem`child, newchild`prev, (if next != null then {next} else {})`next
    ensures IsTree(Tree(newitem, us + [u]))
  {
    hide Nodes, Below, Roots, Apart, IsTree;
    ghost var s, all := Roots(us), us + [u];
    TreeParts(newitem, us);
    RootsPlus(us, u);
    BelowPlus(newitem, us, u);
    ApartPlus(newitem, us, u);
    NewChildApart(newitem, us, u);
    if next != null {
      next.next := newchild;
      newchild.prev := next;
    } else {
      newitem.child := newchild;
    }
    LinkedPlus(s, newchild);
    forall i | 0 <= i < |all|
      ensures IsTree(all[i])
    {
      assert i < |us| ==> all[i] == us[i] && us[i].node != newitem;
      assert next != null ==> next in s && next !in Below(all[i]);
      assert newitem !in Below(all[i]) && newchild !in Below(all[i]);
    }
    TreeWhole(newitem, all);
  }

  lemma TreeParts(newitem: Node, us: seq<Tree>)
    requires IsTree(Tree(newitem, us))
    ensures Children(newitem, Roots(us)) && newitem !in Below(Tree(newitem, us)) && Apart(us)
    ensures forall i | 0 <= i < |us| :: IsTree(us[i]) && us[i].node == Roots(us)[i]
  {
  }

  lemma TreeWhole(newitem: Node, us: seq<Tree>)
    requires Children(newitem, Roots(us)) && newitem !in Below(Tree(newitem, us)) && Apart(us)
    requires forall i | 0 <= i < |us| :: IsTree(us[i])
    ensures IsTree(Tree(newitem, us))
  {
  }

  /** The links that list operations change lie in no part of the list that a tree's form depends on. */
  lemma LinksOutside(list: Node, ts: seq<Tree>)
    requires IsTree(Tree(list, ts))
    ensures forall i | 0 <= i < |ts| :: ts[i].node != list && list !in Below(ts[i])
    ensures forall i, n | 0 <= i < |ts| && n in Roots(ts) :: n !in Below(ts[i])
  {
    forall i, j | 0 <= i < |ts| && 0 <= j < |ts|
      ensures Roots(ts)[j] !in Below(ts[i])
    {
      RootApart(ts, i, j);
    }
    RootNew(list, ts, list);
    forall i | 0 <= i < |ts|
      ensures ts[i].node != list
    {
      assert ts[i].node == Roots(ts)[i];
    }
  }

  lemma NewChildApart(newitem: Node, us: seq<Tree>, u: Tree)
    requires IsTree(Tree(newitem, us)) && IsTree(u) && newitem !in Nodes(u) && Nodes(u) !! Below(Tree(newitem, us))
    ensures u.node !in Roots(us) && newitem !in Below(u) && u.node !in Below(u)
    ensures forall i | 0 <= i < |us| :: u.node !in Below(us[i]) && newitem !in Below(us[i])
    ensures newitem != u.node && forall i | 0 <= i < |us| :: us[i].node != newitem
    ensures forall i, n | 0 <= i < |us| && n in Roots(us) :: n !in Below(us[i])
    ensures forall n | n in Roots(us) :: n !in Below(u)
  {
    LinksOutside(newitem, us);
    RootNew(newitem, us, u.node);
    RootsBelow(Tree(newitem, us));
  }

  lemma {:induction false} TreeAllocated(t: Tree)
    ensures forall n | n in Nodes(t) :: allocated(n)
    ensures Nodes(t) == {t.node} + Below(t)
    decreases t
  {
    forall c | c in t.children
      ensures forall n | n in Nodes(c) :: allocated(n)
    {
      TreeAllocated(c);
    }
  }

  /** cJSON_Duplicate. A copy below the root is recursive whatever recurse is. */
  method Duplicate(item: Node?, recurse: bool, ghost t: Tree) returns (newitem: Node?, ghost u: Tree)
    requires item != null ==> item == t.node && IsTree(t)
    ensures item == null ==> newitem == null
    ensures item != null ==> (
      newitem == u.node && newitem.next == null && newitem.prev == null
      && fresh(Nodes(u)) && IsTree(u)
      && if recurse then Copied(t, u) else SameData(item, newitem) && u.children == [])
    decreases t, 2
  {
    hide Nodes, Below, IsTree, Copied, SameData;
    newitem := null;
    u := t;
    if item == null {
      return;
    }
    TreeAllocated(t);
    var copy := CopyData(item);
    newitem := copy;
    u := Tree(copy, []);
    TreeOfOne(copy);
    TreeAllocated(u);
    if recurse {
      u := DuplicateChildren(item, copy, t);
      TreeAllocated(u);
    }
  }

  /** A copy agrees with its original in every field but the links, node by node, and drops the bit of a reference. */
  lemma CopyMeans(t: Tree, u: Tree)
    requires Copied(t, u)
    ensures u.node.itemType == t.node.itemType & 0xfffffeff && u.node.valueint == t.node.valueint
    ensures u.node.valuedouble == t.node.valuedouble && u.node.valuestring == t.node.valuestring && u.node.name == t.node.name
    ensures |u.children| == |t.children| && forall i | 0 <= i < |t.children| :: Copied(t.children[i], u.children[i])
  {
    assert !REFERENCE == 0xfffffeff;
  }

  /** A new node with everything but the links of item. */
  method CopyData(item: Node) returns (copy: Node)
    ensures fresh(copy) && SameData(item, copy)
    ensures copy.next == null && copy.prev == null && copy.child == null
  {
    copy := new Node();
    copy.itemType := item.itemType & !REFERENCE;
    copy.valueint := item.valueint;
    copy.valuedouble := item.valuedouble;
    copy.valuestring := item.valuestring;
    copy.name := item.name;
  }

  /** The loop of cJSON_Duplicate. */
  method DuplicateChildren(item: Node, newitem: Node, ghost t: Tree) returns (ghost u: Tree)
    requires item == t.node && IsTree(t) && newitem !in Nodes(t) && SameData(item, newitem) && newitem.child == null
    modifies newitem`child
    ensures u.node == newitem && fresh(Below(u)) && IsTree(u) && Copied(t, u)
    decreases t, 1
  {
    hide Nodes, Below, IsTree, Copied, SameData, Forest;
    ghost var ts, us: seq<Tree> := t.children, [];
    var child := item.child;
    var next: Node? := null;
    TreeOfOne(newitem);
    TreeParts(t.node, ts);
    TreeAllocated(t);
    while child != null
      invariant |us| <= |ts| && child == At(Roots(ts), |us|)
      invariant IsTree(t) && SameData(item, newitem)
      invariant IsTree(Tree(newitem, us)) && next == At(Roots(us), |us| - 1)
      invariant fresh(Below(Tree(newitem, us)))
      invariant CopiedPart(ts, us)
      decreases |ts| - |us|
    {
      var newchild;
      ghost var c;
      RootsBelow(Tree(newitem, us));
      assert next != null ==> next in Roots(us) && next in Below(Tree(newitem, us));
      newchild, c := DuplicateNext(child, newitem, next, t, us);
      BelowPlus(newitem, us, c);
      RootsPlus(us, c);
      us := us + [c];
      TreeParts(t.node, ts);
      next := newchild;
      child := child.next;
    }
    u := Tree(newitem, us);
    CopiedWhole(t, u);
  }

  /** One turn of the loop: copy a child and link it. */
  method DuplicateNext(child: Node, newitem: Node, next: Node?, ghost t: Tree, ghost us: seq<Tree>)
    returns (newchild: Node, ghost c: Tree)
    requires IsTree(t) && |us| < |t.children| && child == t.children[|us|].node && newitem !in Nodes(t)
    requires IsTree(Tree(newitem, us)) && next == At(Roots(us), |us| - 1) && CopiedPart(t.children, us)
    modifies newitem`child, (if next != null then {next} else {})`next
    ensures newchild == c.node && fresh(Nodes(c)) && CopiedPart(t.children, us + [c])
    ensures IsTree(Tree(newitem, us + [c]))
    decreases t, 0
  {
    hide Nodes, Below, IsTree, Copied, Linked, Roots, At, Forest;
    PartAllocated(t.children, us);
    TreeParts(t.node, t.children);
    TreeAllocated(Tree(newitem, us));
    var copy;
    copy, c := Duplicate(child, true, t.children[|us|]);
    newchild := copy;
    TreeAllocated(c);
    PartAllocated(t.children, us);
    PartAllocated(t.children, us + [c]);
    assert CopiedPart(t.children, us);
    assert CopiedPart(t.children, us + [c]);
    LinkCopy(newitem, next, newchild, us, c);
  }

  /** The copies so far. */
  ghost predicate CopiedPart(ts: seq<Tree>, us: seq<Tree>)
    reads (Forest(ts) + Forest(us))`itemType, (Forest(ts) + Forest(us))`valueint, (Forest(ts) + Forest(us))`valuedouble
    reads (Forest(ts) + Forest(us))`valuestring, (Forest(ts) + Forest(us))`name
  {
    |us| <= |ts| && forall i | 0 <= i < |us| :: Copied(ts[i], us[i])
  }

  ghost function Forest(ts: seq<Tree>): set<Node> {
    set c, n | c in ts && n in Nodes(c) :: n
  }

  lemma PartAllocated(ts: seq<Tree>, us: seq<Tree>)
    ensures forall n | n in Forest(ts) :: allocated(n)
    ensures forall n | n in Forest(us) :: allocated(n)
  {
    hide Nodes;
    forall c | c in ts + us
      ensures forall n | n in Nodes(c) :: allocated(n)
    {
      TreeAllocated(c);
    }
  }

  lemma TreeOfOne(n: Node)
    requires n.child == null
    ensures IsTree(Tree(n, [])) && Below(Tree(n, [])) == {} && Roots([]) == []
  {
  }

  lemma CopiedWhole(t: Tree, u: Tree)
    requires SameData(t.node, u.node) && |t.children| == |u.children|
    requires forall i | 0 <= i < |t.children| :: Copied(t.children[i], u.children[i])
    ensures Copied(t, u)
  {
  }

  /** A copy holds no reference marks any more: it counts as a copy of itself, that is, copying it again changes nothing. */
  lemma {:induction false} CopyIsPlain(t: Tree, u: Tree)
    requires Copied(t, u)
    ensures Copied(u, u)
    decreases t
  {
    var a := t.node.itemType;
    assert (a & !REFERENCE) & !REFERENCE == a & !REFERENCE;
    forall i | 0 <= i < |u.children|
      ensures Copied(u.children[i], u.children[i])
    {
      CopyIsPlain(t.children[i], u.children[i]);
    }
  }
}
