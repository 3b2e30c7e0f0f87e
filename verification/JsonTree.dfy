/** The trees of JsonList as values: what list surgery and copying do to the JSON value that a tree of nodes stands for. */
module JsonTree {
  import opened Options
  import opened JsonSpec
  import opened JsonList

  // ---------- The value of a tree ----------

  const FALSE: bv32 := 1
  const TRUE: bv32 := 2
  const NULL: bv32 := 4
  const NUMBER: bv32 := 8
  const STRING: bv32 := 16
  const ARRAY: bv32 := 32
  const OBJECT: bv32 := 64

  /** The type without the marks above its low byte. */
  function Kind(itemType: bv32): bv32 {
    itemType & 0xFF
  }

  /** Is v the value that the nodes of t hold? */
  ghost predicate Holds(t: Tree, v: Json)
    reads Nodes(t)`itemType, Nodes(t)`valuedouble, Nodes(t)`valuestring, Nodes(t)`name
    decreases t, 0
  {
    match v
    case Null => Kind(t.node.itemType) == NULL
    case False => Kind(t.node.itemType) == FALSE
    case True => Kind(t.node.itemType) == TRUE
    case Number(m, e) => Kind(t.node.itemType) == NUMBER && t.node.valuedouble == (m, e)
    case String(s) => Kind(t.node.itemType) == STRING && t.node.valuestring == Some(s)
    case Array(items) =>
      Kind(t.node.itemType) == ARRAY && |t.children| == |items|
      && forall i | 0 <= i < |items| :: Holds(t.children[i], items[i])
    case Object(members) =>
      Kind(t.node.itemType) == OBJECT && |t.children| == |members|
      && forall i | 0 <= i < |members| :: HoldsMember(t.children[i], members[i])
  }

  ghost predicate HoldsMember(t: Tree, m: Member)
    reads Nodes(t)`itemType, Nodes(t)`valuedouble, Nodes(t)`valuestring, Nodes(t)`name
    decreases t, 1
  {
    t.node.name == Some(m.key) && Holds(t, m.value)
  }

  /** The bits of cJSON.h for each kind of value, whatever is set above the low byte. */
  lemma TypeBits(t: Tree, m: int, e: int, s: string, items: seq<Json>, members: seq<Member>)
    ensures var bits := t.node.itemType & 0xff;
            && (Holds(t, False) <==> bits == 1) && (Holds(t, True) <==> bits == 2) && (Holds(t, Null) <==> bits == 4)
            && (Holds(t, Number(m, e)) <==> bits == 8 && t.node.valuedouble == (m, e))
            && (Holds(t, String(s)) <==> bits == 16 && t.node.valuestring == Some(s))
            && (Holds(t, Array(items)) ==> bits == 32) && (Holds(t, Object(members)) ==> bits == 64)
  {
  }

  /** A tree holds one value at most. */
  lemma {:induction false} HoldsOne(t: Tree, v: Json, w: Json)
    requires Holds(t, v) && Holds(t, w)
    ensures v == w
    decreases t
  {
    match v
    case Array(items) =>
      forall i | 0 <= i < |items|
        ensures items[i] == w.items[i]
      {
        HoldsOne(t.children[i], items[i], w.items[i]);
      }
    case Object(members) =>
      forall i | 0 <= i < |members|
        ensures members[i] == w.members[i]
      {
        assert HoldsMember(t.children[i], members[i]) && HoldsMember(t.children[i], w.members[i]);
        HoldsOne(t.children[i], members[i].value, w.members[i].value);
      }
    case _ =>
  }

  lemma KindOfCopy(a: bv32)
    ensures Kind(a & !REFERENCE) == Kind(a)
  {
  }

  /** What counts for the value is the same in both nodes. */
  ghost predicate SameContent(a: Node, b: Node)
    reads {a, b}`itemType, {a, b}`valuedouble, {a, b}`valuestring, {a, b}`name
  {
    Kind(a.itemType) == Kind(b.itemType) && a.valuedouble == b.valuedouble && a.valuestring == b.valuestring && a.name == b.name
  }

  lemma CopiedParts(t: Tree, u: Tree)
    requires Copied(t, u)
    ensures SameContent(t.node, u.node) && |t.children| == |u.children|
    ensures forall i | 0 <= i < |t.children| :: Copied(t.children[i], u.children[i])
  {
    hide Kind;
    KindOfCopy(t.node.itemType);
  }

  lemma HoldsArray(t: Tree, items: seq<Json>)
    ensures Holds(t, Array(items)) <==>
            Kind(t.node.itemType) == ARRAY && |t.children| == |items|
            && forall i | 0 <= i < |items| :: Holds(t.children[i], items[i])
  {
  }

  lemma HoldsObject(t: Tree, members: seq<Member>)
    ensures Holds(t, Object(members)) <==>
            Kind(t.node.itemType) == OBJECT && |t.children| == |members|
            && forall i | 0 <= i < |members| :: HoldsMember(t.children[i], members[i])
  {
  }

  lemma CopyHoldsScalar(t: Tree, u: Tree, v: Json)
    requires SameContent(t.node, u.node) && !v.Array? && !v.Object?
    ensures Holds(t, v) <==> Holds(u, v)
  {
    hide Kind;
  }

  /** A copy holds exactly the value of the original. */
  lemma {:induction false} CopyHolds(t: Tree, u: Tree, v: Json)
    requires Copied(t, u)
    ensures Holds(t, v) <==> Holds(u, v)
    decreases t
  {
    hide Kind, Holds, Copied;
    CopiedParts(t, u);
    match v
    case Array(items) =>
      HoldsArray(t, items);
      HoldsArray(u, items);
      if |items| == |t.children| {
        forall i | 0 <= i < |items|
          ensures Holds(t.children[i], items[i]) <==> Holds(u.children[i], items[i])
        {
          CopyHolds(t.children[i], u.children[i], items[i]);
        }
      }
    case Object(members) =>
      HoldsObject(t, members);
      HoldsObject(u, members);
      if |members| == |t.children| {
        forall i | 0 <= i < |members|
          ensures HoldsMember(t.children[i], members[i]) <==> HoldsMember(u.children[i], members[i])
        {
          CopiedParts(t.children[i], u.children[i]);
          CopyHolds(t.children[i], u.children[i], members[i].value);
        }
      }
    case _ => CopyHoldsScalar(t, u, v);
  }

  // ---------- Rows of trees ----------

  /** Is u a tree that shares no node with the list and what is below it? */
  ghost predicate NewTo(list: Node, ts: seq<Tree>, u: Tree)
    reads u.node`child, Below(u)
  {
    IsTree(u) && list !in Nodes(u) && Nodes(u) !! Below(Tree(list, ts))
  }

  lemma BelowSome(list: Node, ts: seq<Tree>, us: seq<Tree>, more: set<Node>)
    requires forall c | c in ts :: c in us || Nodes(c) <= more
    ensures Below(Tree(list, ts)) <= Below(Tree(list, us)) + more
  {
    hide Nodes;
    forall n | n in Below(Tree(list, ts))
      ensures n in Below(Tree(list, us)) + more
    {
      var c :| c in ts && n in Nodes(c);
      if c in us {
        assert n in Below(Tree(list, us));
      }
    }
  }

  /** One more tree in a row. */
  lemma WithRow(list: Node, ts: seq<Tree>, k: nat, u: Tree)
    requires k <= |ts| && Apart(ts) && Nodes(u) !! Below(Tree(list, ts)) && list !in Nodes(u) && list !in Below(Tree(list, ts))
    ensures Roots(With(ts, k, u)) == With(Roots(ts), k, u.node)
    ensures Apart(With(ts, k, u)) && list !in Below(Tree(list, With(ts, k, u)))
  {
    hide Nodes, Below;
    var us := With(ts, k, u);
    BelowSome(list, us, ts, Nodes(u));
    forall i | 0 <= i < |ts|
      ensures Nodes(ts[i]) !! Nodes(u)
    {
      PartBelow(list, ts, i);
    }
    forall i, j | 0 <= i < j < |us|
      ensures Nodes(us[i]) !! Nodes(us[j])
    {
      assert us[i] == if i == k then u else ts[if i < k then i else i - 1];
      assert us[j] == if j == k then u else ts[if j < k then j else j - 1];
    }
  }

  /** One tree less in a row; it shares nothing with the others. */
  lemma WithoutRow(list: Node, ts: seq<Tree>, k: nat)
    requires k < |ts| && Apart(ts) && list !in Below(Tree(list, ts))
    ensures Roots(Without(ts, k)) == Without(Roots(ts), k)
    ensures Apart(Without(ts, k)) && list !in Below(Tree(list, Without(ts, k))) && list !in Nodes(ts[k])
    ensures Nodes(ts[k]) !! Below(Tree(list, Without(ts, k)))
    ensures Below(Tree(list, Without(ts, k))) <= Below(Tree(list, ts))
  {
    hide Nodes, Below;
    var us := Without(ts, k);
    assert forall i | 0 <= i < |us| :: us[i] == ts[if i < k then i else i + 1];
    BelowSome(list, us, ts, {});
    PartBelow(list, ts, k);
    forall n | n in Below(Tree(list, us))
      ensures n !in Nodes(ts[k])
    {
      NodeBelow(list, us, n);
      var i :| 0 <= i < |us| && n in Nodes(us[i]);
      assert Nodes(us[i]) !! Nodes(ts[k]);
    }
  }

  lemma NodeBelow(list: Node, us: seq<Tree>, n: Node)
    requires n in Below(Tree(list, us))
    ensures exists i :: 0 <= i < |us| && n in Nodes(us[i])
  {
    hide Nodes;
    var c :| c in us && n in Nodes(c);
  }

  /** Replacing is removing and inserting. */
  lemma UpdateIsBoth<T>(s: seq<T>, k: nat, x: T)
    requires k < |s|
    ensures With(Without(s, k), k, x) == s[k := x]
  {
  }

  // ---------- Rows of values ----------

  /** The array of the members' values, or the object of the members. */
  function RowValue(named: bool, members: seq<Member>): Json {
    if named then Object(members) else Array(seq(|members|, i requires 0 <= i < |members| => members[i].value))
  }

  /** Does the tree hold the member? In an array the name does not count. */
  ghost predicate HoldsPart(t: Tree, named: bool, m: Member)
    reads Nodes(t)`itemType, Nodes(t)`valuedouble, Nodes(t)`valuestring, Nodes(t)`name
  {
    if named then HoldsMember(t, m) else Holds(t, m.value)
  }

  /** Does the list with its trees hold the array or object? */
  ghost predicate HoldsRow(list: Node, ts: seq<Tree>, named: bool, members: seq<Member>)
    reads Nodes(Tree(list, ts))`itemType, Nodes(Tree(list, ts))`valuedouble
    reads Nodes(Tree(list, ts))`valuestring, Nodes(Tree(list, ts))`name
  {
    Holds(Tree(list, ts), RowValue(named, members))
  }

  lemma RowParts(list: Node, ts: seq<Tree>, named: bool, members: seq<Member>)
    ensures HoldsRow(list, ts, named, members) <==>
            Kind(list.itemType) == (if named then OBJECT else ARRAY) && |ts| == |members|
            && forall i | 0 <= i < |members| :: HoldsPart(ts[i], named, members[i])
  {
    hide Kind, Holds, HoldsMember;
    if named {
      HoldsObject(Tree(list, ts), members);
    } else {
      var items := RowValue(false, members).items;
      HoldsArray(Tree(list, ts), items);
      assert forall i | 0 <= i < |members| :: items[i] == members[i].value;
    }
  }

  lemma WithHolds(list: Node, ts: seq<Tree>, named: bool, members: seq<Member>, k: nat, u: Tree, m: Member)
    requires HoldsRow(list, ts, named, members) && HoldsPart(u, named, m) && k <= |ts|
    ensures |members| == |ts| && HoldsRow(list, With(ts, k, u), named, With(members, k, m))
  {
    hide HoldsRow, HoldsPart, Kind;
    RowParts(list, ts, named, members);
    RowParts(list, With(ts, k, u), named, With(members, k, m));
  }

  lemma WithoutHolds(list: Node, ts: seq<Tree>, named: bool, members: seq<Member>, k: nat)
    requires HoldsRow(list, ts, named, members) && k < |ts|
    ensures |members| == |ts| && HoldsPart(ts[k], named, members[k])
    ensures HoldsRow(list, Without(ts, k), named, Without(members, k))
  {
    hide HoldsRow, HoldsPart, Kind;
    RowParts(list, ts, named, members);
    RowParts(list, Without(ts, k), named, Without(members, k));
  }

  // ---------- List operations on trees ----------

  /** cJSON_AddItemToArray on trees: nothing below the items changes, and the value of an array or object gets one
      item more. */
  method AppendTree(list: Node, item: Node, ghost ts: seq<Tree>, ghost u: Tree,
                    ghost named: bool, ghost members: seq<Member>, ghost m: Member)
    requires IsTree(Tree(list, ts)) && NewTo(list, ts, u) && u.node == item && item.next == null && item.prev == null
    modifies list`child, item`prev, Roots(ts)`next
    ensures IsTree(Tree(list, ts + [u]))
    ensures old(HoldsRow(list, ts, named, members) && HoldsPart(u, named, m)) ==> HoldsRow(list, ts + [u], named, members + [m])
  {
    hide Nodes, Below, IsTree, HoldsRow, HoldsPart, Roots, Apart, With, NewTo;
    ghost var t, us := Tree(list, ts), ts + [u];
    Ready(list, ts, u);
    AppendIsWith(ts, u);
    AppendIsWith(Roots(ts), item);
    AppendIsWith(members, m);
    WithRow(list, ts, |ts|, u);
    AddItemToArray(list, item, Roots(ts));
    forall i | 0 <= i < |us|
      ensures IsTree(us[i])
    {
      assert us[i] == if i == |ts| then u else ts[i];
    }
    TreeWhole(list, us);
    if old(HoldsRow(list, ts, named, members) && HoldsPart(u, named, m)) {
      WithHolds(list, ts, named, members, |ts|, u, m);
    }
  }

  /** cJSON_InsertItemInArray on trees. */
  method InsertTree(list: Node, which: int, newitem: Node, ghost ts: seq<Tree>, ghost u: Tree,
                    ghost named: bool, ghost members: seq<Member>, ghost m: Member)
    requires IsTree(Tree(list, ts)) && NewTo(list, ts, u) && u.node == newitem
    requires which >= |ts| ==> newitem.next == null && newitem.prev == null
    modifies list`child, newitem`next, newitem`prev, Roots(ts)`next, Roots(ts)`prev
    ensures var k := if which < |ts| then which else |ts|;
            IsTree(Tree(list, if k < 0 then ts else With(ts, k, u)))
    ensures old(HoldsRow(list, ts, named, members) && HoldsPart(u, named, m)) ==> (
              var k := if which < |ts| then which else |ts|;
              |members| == |ts|
              && HoldsRow(list, if k < 0 then ts else With(ts, k, u), named, if k < 0 then members else With(members, k, m)))
  {
    hide Nodes, Below, IsTree, HoldsRow, HoldsPart, Roots, Apart, With, NewTo;
    ghost var t, k := Tree(list, ts), if which < |ts| then which else |ts|;
    Ready(list, ts, u);
    if k >= 0 {
      WithRow(list, ts, k, u);
      AppendIsWith(Roots(ts), newitem);
    }
    if old(HoldsRow(list, ts, named, members)) {
      RowLength(list, ts, named, members);
    }
    InsertItemInArray(list, which, newitem, Roots(ts));
    ghost var us := if k < 0 then ts else With(ts, k, u);
    forall i | 0 <= i < |us|
      ensures IsTree(us[i])
    {
      if k >= 0 {
        InWith(ts, k, u, i);
      }
    }
    TreeWhole(list, us);
    if k >= 0 && old(HoldsRow(list, ts, named, members) && HoldsPart(u, named, m)) {
      WithHolds(list, ts, named, members, k, u, m);
    }
  }

  /** cJSON_DetachItemViaPointer on trees: what is detached stays a tree and shares nothing with the rest. */
  method DetachTree(parent: Node, item: Node, ghost ts: seq<Tree>, ghost k: nat, ghost named: bool, ghost members: seq<Member>)
    returns (r: Node)
    requires IsTree(Tree(parent, ts)) && k < |ts| && ts[k].node == item
    modifies parent`child, Roots(ts)`next, Roots(ts)`prev
    ensures r == item && item.next == null && item.prev == null
    ensures IsTree(Tree(parent, Without(ts, k))) && NewTo(parent, Without(ts, k), ts[k])
    ensures old(HoldsRow(parent, ts, named, members)) ==> (
              |members| == |ts| && HoldsPart(ts[k], named, members[k]) && HoldsRow(parent, Without(ts, k), named, Without(members, k)))
  {
    hide Nodes, Below, IsTree, HoldsRow, HoldsPart, Roots, Apart, Without;
    ghost var t, us := Tree(parent, ts), Without(ts, k);
    ReadyRow(parent, ts);
    WithoutRow(parent, ts, k);
    r := DetachItemViaPointer(parent, item, Roots(ts), k);
    forall i | 0 <= i < |ts|
      ensures IsTree(ts[i])
    {
    }
    forall i | 0 <= i < |us|
      ensures IsTree(us[i])
    {
      InWithout(ts, k, i);
    }
    TreeWhole(parent, us);
    if old(HoldsRow(parent, ts, named, members)) {
      WithoutHolds(parent, ts, named, members, k);
    }
  }

  /** cJSON_ReplaceItemViaPointer on trees, for another item than the one replaced. */
  method ReplaceTree(parent: Node, item: Node, replacement: Node, ghost ts: seq<Tree>, ghost k: nat, ghost u: Tree,
                     ghost named: bool, ghost members: seq<Member>, ghost m: Member)
    requires IsTree(Tree(parent, ts)) && NewTo(parent, ts, u) && u.node == replacement && k < |ts| && ts[k].node == item
    modifies parent`child, replacement`next, replacement`prev, Roots(ts)`next, Roots(ts)`prev
    ensures IsTree(Tree(parent, ts[k := u])) && NewTo(parent, ts[k := u], ts[k])
    ensures old(HoldsRow(parent, ts, named, members) && HoldsPart(u, named, m)) ==>
              |members| == |ts| && HoldsRow(parent, ts[k := u], named, members[k := m])
  {
    hide Nodes, Below, IsTree, HoldsRow, HoldsPart, Roots, Apart, NewTo;
    ghost var t, us := Tree(parent, ts), ts[k := u];
    Ready(parent, ts, u);
    ReplacedRow(parent, ts, k, u);
    var ok := ReplaceItemViaPointer(parent, item, replacement, Roots(ts), k);
    forall i | 0 <= i < |ts|
      ensures IsTree(ts[i])
    {
    }
    forall i | 0 <= i < |us|
      ensures IsTree(us[i])
    {
      assert us[i] == if i == k then u else ts[i];
    }
    TreeWhole(parent, us);
    NewToRest(parent, us, ts[k]);
    if old(HoldsRow(parent, ts, named, members) && HoldsPart(u, named, m)) {
      RowLength(parent, ts, named, members);
      WithoutHolds(parent, ts, named, members, k);
      WithHolds(parent, Without(ts, k), named, Without(members, k), k, u, m);
      UpdateIsBoth(ts, k, u);
      UpdateIsBoth(members, k, m);
    }
  }

  lemma NewToRest(list: Node, ts: seq<Tree>, u: Tree)
    requires IsTree(u) && list !in Nodes(u) && Nodes(u) !! Below(Tree(list, ts))
    ensures NewTo(list, ts, u)
  {
  }

  lemma RowLength(list: Node, ts: seq<Tree>, named: bool, members: seq<Member>)
    requires HoldsRow(list, ts, named, members)
    ensures |members| == |ts|
  {
    RowParts(list, ts, named, members);
  }

  lemma InWithout<T>(s: seq<T>, k: nat, i: nat)
    requires k < |s| && i < |Without(s, k)|
    ensures i < |s| - 1 && Without(s, k)[i] == s[if i < k then i else i + 1]
  {
  }

  /** The row with one tree replaced; what was replaced shares nothing with it. */
  lemma ReplacedRow(list: Node, ts: seq<Tree>, k: nat, u: Tree)
    requires k < |ts| && Apart(ts) && Nodes(u) !! Below(Tree(list, ts)) && list !in Nodes(u) && list !in Below(Tree(list, ts))
    ensures Roots(ts[k := u]) == Roots(ts)[k := u.node]
    ensures Apart(ts[k := u]) && list !in Below(Tree(list, ts[k := u]))
    ensures list !in Nodes(ts[k]) && Nodes(ts[k]) !! Below(Tree(list, ts[k := u]))
  {
    hide Nodes, Below;
    WithoutRow(list, ts, k);
    WithRow(list, Without(ts, k), k, u);
    UpdateIsBoth(ts, k, u);
    UpdateIsBoth(Roots(ts), k, u.node);
    PartBelow(list, ts, k);
    BelowSome(list, ts[k := u], Without(ts, k), Nodes(u));
  }

  /** What is known of a list of trees. */
  lemma ReadyRow(list: Node, ts: seq<Tree>)
    requires IsTree(Tree(list, ts))
    ensures Children(list, Roots(ts)) && list !in Below(Tree(list, ts)) && Apart(ts)
    ensures forall i | 0 <= i < |ts| :: IsTree(ts[i]) && ts[i].node == Roots(ts)[i]
    ensures forall i | 0 <= i < |ts| :: ts[i].node != list && list !in Below(ts[i])
    ensures forall i, j | 0 <= i < |ts| && 0 <= j < |ts| :: Roots(ts)[j] !in Below(ts[i])
    ensures forall n | n in Nodes(Tree(list, ts)) :: allocated(n)
    ensures forall i, n | 0 <= i < |ts| && n in Below(ts[i]) :: allocated(n)
  {
    hide IsTree, Below, Nodes, Roots, Apart;
    TreeParts(list, ts);
    LinksOutside(list, ts);
    forall i, j | 0 <= i < |ts| && 0 <= j < |ts|
      ensures Roots(ts)[j] !in Below(ts[i])
    {
      assert Roots(ts)[j] in Roots(ts);
    }
    TreeAllocated(Tree(list, ts));
    forall i | 0 <= i < |ts|
      ensures forall n | n in Below(ts[i]) :: allocated(n)
    {
      TreeAllocated(ts[i]);
    }
  }

  /** What is known of a list of trees and a tree that goes into it. */
  lemma Ready(list: Node, ts: seq<Tree>, u: Tree)
    requires IsTree(Tree(list, ts)) && NewTo(list, ts, u)
    ensures Children(list, Roots(ts)) && list !in Below(Tree(list, ts)) && Apart(ts)
    ensures forall i | 0 <= i < |ts| :: IsTree(ts[i]) && ts[i].node == Roots(ts)[i]
    ensures forall i | 0 <= i < |ts| :: ts[i].node != list && list !in Below(ts[i]) && u.node !in Below(ts[i])
    ensures forall i, j | 0 <= i < |ts| && 0 <= j < |ts| :: Roots(ts)[j] !in Below(ts[i])
    ensures forall j | 0 <= j < |ts| :: Roots(ts)[j] !in Below(u)
    ensures IsTree(u) && list != u.node && u.node !in Roots(ts) && list !in Below(u) && u.node !in Below(u)
    ensures list !in Nodes(u) && Nodes(u) !! Below(Tree(list, ts))
    ensures forall n | n in Nodes(Tree(list, ts)) :: allocated(n)
    ensures forall i, n | 0 <= i < |ts| && n in Below(ts[i]) :: allocated(n)
    ensures forall n | n in Nodes(u) :: allocated(n)
    ensures Nodes(u) == {u.node} + Below(u)
  {
    hide IsTree, Below, Nodes, Roots, Apart;
    ReadyRow(list, ts);
    NewChildApart(list, ts, u);
    TreeAllocated(u);
  }
}
