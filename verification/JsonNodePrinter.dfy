/** The printer on nodes: it follows the chains of children, and prints what the tree holds. */
module JsonNodePrinter {
  import opened Options
  import opened JsonSpec
  import opened JsonRoundTrip
  import opened JsonList
  import opened JsonTree
  import opened JsonPrinter

  /** What a tree with this value looks like from its node. */
  lemma NodeOf(t: Tree, v: Json)
    requires Holds(t, v)
    ensures var kind := Kind(t.node.itemType);
            match v
            case Null => kind == NULL
            case False => kind == FALSE
            case True => kind == TRUE
            case Number(m, e) => kind == NUMBER && t.node.valuedouble == (m, e)
            case String(s) => kind == STRING && t.node.valuestring == Some(s)
            case Array(_) => kind == ARRAY
            case Object(_) => kind == OBJECT
  {
    hide Kind;
  }

  /** The children of a tree and what they hold. */
  lemma Elements(t: Tree, v: Json)
    requires IsTree(t) && Holds(t, v) && v.Array?
    ensures |t.children| == |v.items| && Children(t.node, Roots(t.children))
    ensures forall i | 0 <= i < |v.items| ::
      IsTree(t.children[i]) && Holds(t.children[i], v.items[i]) && t.children[i].node == Roots(t.children)[i]
  {
    hide Kind;
    HoldsArray(t, v.items);
    TreeParts(t.node, t.children);
  }

  lemma Entries(t: Tree, v: Json)
    requires IsTree(t) && Holds(t, v) && v.Object?
    ensures |t.children| == |v.members| && Children(t.node, Roots(t.children))
    ensures forall i | 0 <= i < |v.members| ::
      IsTree(t.children[i]) && Holds(t.children[i], v.members[i].value) && t.children[i].node == Roots(t.children)[i]
      && t.children[i].node.name == Some(v.members[i].key)
  {
    hide Kind;
    HoldsObject(t, v.members);
    TreeParts(t.node, t.children);
    assert forall i | 0 <= i < |v.members| :: HoldsMember(t.children[i], v.members[i]);
  }

  /** print_value on a node whose tree holds v: it succeeds exactly when the text fits, and then the buffer holds it. */
  method PrintValue(p: PrintBuffer, item: Node, ghost t: Tree, ghost v: Json) returns (ok: bool)
    requires p.Valid() && p.offset <= p.buffer.Length && Printable(v)
    requires IsTree(t) && Holds(t, v) && t.node == item
    modifies p, p.buffer
    ensures p.Kept() && (ok ==> p.depth == old(p.depth))
    ensures ok <==> old(p.offset) + Need(v, p.format, old(p.depth)) <= old(p.Capacity())
    ensures ok ==> p.Printed(old(p.Text()), Print(v, p.format, old(p.depth)))
    ensures p.Grown(FirstRequest(v, p.format))
    decreases v, 6
  {
    hide Quote, PrintInt, PrintItems, PrintMembers, IsTree, Holds;
    NodeOf(t, v);
    var kind := item.itemType & 0xFF;
    if kind == NULL {
      ok := p.PrintWord("null");
    } else if kind == FALSE {
      ok := p.PrintWord("false");
    } else if kind == TRUE {
      ok := p.PrintWord("true");
    } else if kind == NUMBER {
      ok := p.PrintNumber(item.valuedouble.0);
    } else if kind == STRING {
      ok := p.PrintString(item.valuestring.value);
    } else if kind == ARRAY {
      ok := PrintArray(p, item, t, v);
    } else {
      ok := PrintObject(p, item, t, v);
    }
  }

  /** One turn of the loop of print_array. */
  method PrintItem(p: PrintBuffer, item: Node, ghost t: Tree, ghost v: Json) returns (ok: bool)
    requires p.Valid() && p.offset <= p.buffer.Length && Printable(v)
    requires IsTree(t) && Holds(t, v) && t.node == item
    modifies p, p.buffer
    ensures p.Kept() && (ok ==> p.depth == old(p.depth))
    ensures var last, text := item.next == null, Print(v, p.format, old(p.depth));
            (ok <==> old(p.offset) + (if last then Need(v, p.format, old(p.depth)) else |text| + |Comma(p.format, last)| + 2) <= old(p.Capacity()))
            && (ok ==> p.offset < p.length && p.Text() == old(p.Text()) + text + Comma(p.format, last))
    decreases v, 7
  {
    hide Print, Comma, IsTree, Holds;
    PrintCString(v, p.format, p.depth);
    ghost var was, text := p.Text(), Print(v, p.format, p.depth);
    CommaText(p.format, item.next == null);
    ok := PrintValue(p, item, t, v);
    if !ok {
      return;
    }
    p.UpdateOffset(was, text);
    if item.next != null {
      ok := p.Append(Comma(p.format, false), 1, true);
    }
  }

  /** The loop of print_array along the chain. */
  method PrintElements(p: PrintBuffer, item: Node, ghost t: Tree, ghost v: Json) returns (ok: bool)
    requires p.Valid() && p.offset < p.buffer.Length && Printable(v) && v.Array?
    requires IsTree(t) && Holds(t, v) && t.node == item
    modifies p, p.buffer
    ensures p.Kept() && (ok ==> p.depth == old(p.depth))
    ensures !ok ==> old(p.offset) + |PrintItems(v.items, p.format, old(p.depth))| + 2 > old(p.Capacity())
    ensures ok ==> p.offset < p.buffer.Length && p.Text() == old(p.Text()) + PrintItems(v.items, p.format, p.depth)
    decreases v, 4
  {
    hide Print, Comma, PrintItems, IsTree, Holds, Nodes, Below;
    Elements(t, v);
    TreeAllocated(t);
    ghost var was, all := p.Text(), PrintItems(v.items, p.format, p.depth);
    ghost var done, i := "", 0;
    var current := item.child;
    ok := true;
    assert v.items[0..] == v.items;
    while current != null
      invariant 0 <= i <= |v.items| && current == At(Roots(t.children), i)
      invariant p.Kept() && p.depth == old(p.depth) && p.offset < p.buffer.Length
      invariant p.Text() == was + done
      invariant all == done + PrintItems(v.items[i..], p.format, p.depth)
      decreases |v.items| - i
    {
      Elements(t, v);
      ItemsText(v.items, i, p.format, p.depth, done);
      ghost var last := i + 1 == |v.items|;
      ghost var before := p.Text();
      ghost var text := Print(v.items[i], p.format, p.depth) + Comma(p.format, last);
      assert current.next == At(Roots(t.children), i + 1);
      ok := PrintItem(p, current, t.children[i], v.items[i]);
      if !ok {
        return;
      }
      Glue(was, done, p.Text(), before, Print(v.items[i], p.format, p.depth), Comma(p.format, last));
      done := done + text;
      current := current.next;
      i := i + 1;
    }
    NoItemsText(v.items, p.format, p.depth);
  }

  method PrintArray(p: PrintBuffer, item: Node, ghost t: Tree, ghost v: Json) returns (ok: bool)
    requires p.Valid() && p.offset <= p.buffer.Length && Printable(v) && v.Array?
    requires IsTree(t) && Holds(t, v) && t.node == item
    modifies p, p.buffer
    ensures p.Kept() && (ok ==> p.depth == old(p.depth))
    ensures ok <==> old(p.offset) + Need(v, p.format, old(p.depth)) <= old(p.Capacity())
    ensures ok ==> p.Printed(old(p.Text()), Print(v, p.format, old(p.depth)))
    ensures p.Grown(FirstRequest(v, p.format))
    decreases v, 5
  {
    hide Print, PrintItems, Need, IsTree, Holds, Nodes, Below;
    TreeAllocated(t);
    ArrayText(v.items, p.format, p.depth);
    ghost var was, items := p.Text(), PrintItems(v.items, p.format, p.depth + 1);
    ok := p.Append("[", 0, false);
    if !ok {
      return;
    }
    p.depth := p.depth + 1;
    ok := PrintElements(p, item, t, v);
    if !ok {
      return;
    }
    Assoc(was, "[", items);
    ok := p.Close(was, "[" + items, "]");
  }

  method PrintObject(p: PrintBuffer, item: Node, ghost t: Tree, ghost v: Json) returns (ok: bool)
    requires p.Valid() && p.offset <= p.buffer.Length && Printable(v) && v.Object?
    requires IsTree(t) && Holds(t, v) && t.node == item
    modifies p, p.buffer
    ensures p.Kept() && (ok ==> p.depth == old(p.depth))
    ensures ok <==> old(p.offset) + Need(v, p.format, old(p.depth)) <= old(p.Capacity())
    ensures ok ==> p.Printed(old(p.Text()), Print(v, p.format, old(p.depth)))
    ensures p.Grown(FirstRequest(v, p.format))
    decreases v, 5
  {
    hide Print, PrintMembers, Need, Open, Indent, IsTree, Holds, Nodes, Below;
    TreeAllocated(t);
    ObjectParts(v.members, p.format, p.depth);
    ghost var was, members := p.Text(), PrintMembers(v.members, p.format, p.depth + 1);
    ghost var open, close := Open(p.format), Indent(p.format, p.depth) + "}";
    ghost var start, room := p.offset, p.Capacity();
    ghost var need := |open| + |members| + |close| + 2;
    assert Need(v, p.format, p.depth) == need && Print(v, p.format, p.depth) == open + members + close;
    ok := p.Append(Open(p.format), 1, false);
    if !ok {
      return;
    }
    assert p.offset == start + |open|;
    p.depth := p.depth + 1;
    ok := PrintEntries(p, item, t, v);
    if !ok {
      assert start + need > room;
      return;
    }
    Assoc(was, open, members);
    assert p.offset == start + |open| + |members|;
    ok := p.Close(was, open + members, Indent(p.format, p.depth - 1) + "}");
  }

  /** One turn of the loop of print_object. */
  method PrintMember(p: PrintBuffer, item: Node, ghost t: Tree, ghost m: Member) returns (ok: bool)
    requires p.Valid() && p.offset < p.buffer.Length && CString(m.key) && Printable(m.value)
    requires IsTree(t) && Holds(t, m.value) && t.node == item && item.name == Some(m.key)
    modifies p, p.buffer
    ensures p.Kept() && (ok ==> p.depth == old(p.depth))
    ensures var text := MemberText(m, p.format, old(p.depth), item.next == null);
            (ok <==> old(p.offset) + |text| + 2 <= old(p.Capacity()))
            && (ok ==> p.offset < p.buffer.Length && p.Text() == old(p.Text()) + text)
    decreases m, 7
  {
    hide Print, LineEnd, MemberText, KeyText, IsTree, Holds, Nodes, Below;
    TreeAllocated(t);
    ghost var last := item.next == null;
    MemberParts(m, p.format, p.depth, last);
    PrintCString(m.value, p.format, p.depth);
    ghost var was, key, value := p.Text(), KeyText(m.key, p.format, p.depth), Print(m.value, p.format, p.depth);
    ok := p.PrintKey(item.name.value);
    if !ok {
      return;
    }
    ok := PrintValue(p, item, t, m.value);
    if !ok {
      return;
    }
    p.UpdateOffset(was + key, value);
    ok := p.Append(LineEnd(p.format, item.next == null), 1, true);
    if ok {
      KeyGlue(was, key, value, LineEnd(p.format, last));
    }
  }

  /** The loop of print_object along the chain. */
  method PrintEntries(p: PrintBuffer, item: Node, ghost t: Tree, ghost v: Json) returns (ok: bool)
    requires p.Valid() && p.offset < p.buffer.Length && Printable(v) && v.Object?
    requires IsTree(t) && Holds(t, v) && t.node == item
    modifies p, p.buffer
    ensures p.Kept() && (ok ==> p.depth == old(p.depth))
    ensures !ok ==> old(p.offset) + |PrintMembers(v.members, p.format, old(p.depth))| + 2 > old(p.Capacity())
    ensures ok ==> p.offset < p.buffer.Length && p.Text() == old(p.Text()) + PrintMembers(v.members, p.format, p.depth)
    decreases v, 4
  {
    hide MemberText, PrintMembers, IsTree, Holds, Nodes, Below;
    Entries(t, v);
    TreeAllocated(t);
    ghost var was, all := p.Text(), PrintMembers(v.members, p.format, p.depth);
    ghost var done, i := "", 0;
    var current := item.child;
    ok := true;
    assert v.members[0..] == v.members;
    while current != null
      invariant 0 <= i <= |v.members| && current == At(Roots(t.children), i)
      invariant p.Kept() && p.depth == old(p.depth) && p.offset < p.buffer.Length
      invariant p.Text() == was + done
      invariant all == done + PrintMembers(v.members[i..], p.format, p.depth)
      decreases |v.members| - i
    {
      Entries(t, v);
      MembersText(v.members, i, p.format, p.depth, done);
      ghost var before := p.Text();
      ghost var text := MemberText(v.members[i], p.format, p.depth, i + 1 == |v.members|);
      assert current.next == At(Roots(t.children), i + 1);
      ok := PrintMember(p, current, t.children[i], v.members[i]);
      if !ok {
        return;
      }
      Glue(was, done, p.Text(), before, text, "");
      done := done + text;
      current := current.next;
      i := i + 1;
    }
    NoMembersText(v.members, p.format, p.depth);
  }

  // ---------- The entry points ----------

  /** Is item the root of the tree t, and does it hold a value v that can be printed? */
  ghost predicate Stands(item: Node, t: Tree, v: Json)
    reads t.node`child, Below(t)
    reads Nodes(t)`itemType, Nodes(t)`valuedouble, Nodes(t)`valuestring, Nodes(t)`name
  {
    t.node == item && IsTree(t) && Holds(t, v) && Printable(v)
  }

  lemma StandsPrintable(item: Node, t: Tree, v: Json)
    requires Stands(item, t, v)
    ensures Printable(v)
  {
  }

  /** print_value refuses a null pointer. */
  method PrintRoot(p: PrintBuffer, item: Node?, ghost t: Tree, ghost v: Json) returns (ok: bool)
    requires p.Valid() && p.offset <= p.buffer.Length && (item != null ==> Stands(item, t, v))
    modifies p, p.buffer
    ensures p.Kept() && (item == null ==> p.length == old(p.length))
    ensures ok <==> item != null && old(p.offset) + Need(v, p.format, old(p.depth)) <= old(p.Capacity())
    ensures ok ==> p.Printed(old(p.Text()), Print(v, p.format, old(p.depth)))
    ensures item != null ==> p.Grown(FirstRequest(v, p.format))
  {
    ok := false;
    if item != null {
      ok := PrintValue(p, item, t, v);
    }
  }

  /** A block that holds the C string text. */
  ghost predicate HoldsText(block: array<char>, text: string)
    reads block
  {
    |text| < block.Length && block[..|text|] == text && block[|text|] == NUL
  }

  lemma NeedIs(v: Json, format: bool)
    ensures Need(v, format, 0) == |Print(v, format, 0)| + (if v.Number? then 1 else 2)
  {
  }

  /** The first requests: a word and its NUL, digits, a quoted string and its NUL, a bracket, a brace and its line feed. */
  lemma FirstRequests(format: bool, m: int, e: int, s: string, items: seq<Json>, members: seq<Member>)
    ensures FirstRequest(Null, format) == 5 && FirstRequest(True, format) == 5 && FirstRequest(False, format) == 6
    ensures FirstRequest(Number(m, e), format) == |PrintInt(m)| && FirstRequest(String(s), format) == |Escape(s)| + 3
    ensures FirstRequest(Array(items), format) == 1 && FirstRequest(Object(members), format) == if format then 3 else 2
  {
  }

  /** print: cJSON_Print and cJSON_PrintUnformatted, with or without a realloc hook. */
  method PrintText(item: Node?, ghost t: Tree, ghost v: Json, format: bool, hasRealloc: bool) returns (printed: Option<array<char>>)
    requires item != null ==> Stands(item, t, v)
    ensures printed.Some? <==> item != null && |Print(v, format, 0)| + (if v.Number? then 1 else 2) <= 0x7fffffff
    ensures printed.Some? ==> fresh(printed.value) && HoldsText(printed.value, Print(v, format, 0))
  {
    NeedIs(v, format);
    hide Print, Need, FirstRequest, Stands, Nodes, Below;
    TreeAllocated(t);
    ghost var text := Print(v, format, 0);
    var first := new char[256];
    var p := new PrintBuffer(first, 0, false, format, hasRealloc);
    assert p.Text() == "";
    var ok := PrintRoot(p, item, t, v);
    assert !p.strayed;
    if !ok {
      return None;
    }
    StandsPrintable(item, t, v);
    PrintCString(v, format, 0);
    p.UpdateOffset("", text);
    assert p.buffer[..p.offset] == text && p.buffer[p.offset] == NUL;
    var block := FinalBlock(p.buffer, p.length, p.offset, hasRealloc);
    printed := Some(block);
  }

  /** The result of print: the buffer cut to its capacity, or a copy of the text. */
  method FinalBlock(buffer: array<char>, length: nat, offset: nat, hasRealloc: bool) returns (block: array<char>)
    requires offset < length == buffer.Length && buffer[offset] == NUL
    ensures fresh(block) && HoldsText(block, buffer[..offset])
  {
    if hasRealloc {
      block := new char[length];
      CopyBytes(block, buffer, length);
    } else {
      block := new char[offset + 1];
      CopyBytes(block, buffer, Min(length, offset + 1));
      block[offset] := NUL;
    }
  }

  /** cJSON_PrintBuffered. Strayed: a byte that lies behind the first block has been copied. That happens exactly if
      the block is empty, there is no realloc hook, and the first request is granted. */
  method PrintBuffered(item: Node?, ghost t: Tree, ghost v: Json, prebuffer: int, format: bool, hasRealloc: bool)
    returns (printed: Option<array<char>>, strayed: bool)
    requires item != null ==> Stands(item, t, v)
    requires prebuffer <= INT_MAX
    ensures printed.Some? <==>
            item != null && prebuffer >= 0 && |Print(v, format, 0)| + (if v.Number? then 1 else 2) <= 0x7fffffff
    ensures printed.Some? ==> fresh(printed.value) && HoldsText(printed.value, Print(v, format, 0))
    ensures strayed <==> item != null && prebuffer == 0 && !hasRealloc && FirstRequest(v, format) < 0x7fffffff
  {
    NeedIs(v, format);
    hide Print, Need, FirstRequest, Stands, Nodes, Below;
    TreeAllocated(t);
    if prebuffer < 0 {
      return None, false;
    }
    var block := new char[prebuffer];
    var p := new PrintBuffer(block, prebuffer, false, format, hasRealloc);
    assert p.Text() == "";
    var ok := PrintRoot(p, item, t, v);
    strayed := p.strayed;
    printed := if ok then Some(p.buffer) else None;
  }

  /** Instances: null is printed into an empty block, and a foreign byte is copied on the way. */
  lemma EmptyBlockStrays(format: bool)
    ensures FirstRequest(Null, format) + 1 <= INT_MAX && Need(Null, format, 0) <= INT_MAX
    ensures FirstRequest(Array([]), format) + 1 <= INT_MAX && Need(Array([]), format, 0) <= INT_MAX
  {
  }

  /** cJSON_PrintPreallocated into the len bytes of buf. */
  method PrintPreallocated(item: Node?, ghost t: Tree, ghost v: Json, buf: array<char>, len: int, format: bool) returns (ok: bool)
    requires item != null ==> Stands(item, t, v)
    requires len <= INT_MAX && (len >= 0 ==> buf.Length == len)
    modifies buf
    ensures ok <==> item != null && |Print(v, format, 0)| + (if v.Number? then 1 else 2) <= len
    ensures ok ==> HoldsText(buf, Print(v, format, 0))
  {
    NeedIs(v, format);
    hide Print, Need, FirstRequest, Stands, Nodes, Below;
    TreeAllocated(t);
    if len < 0 {
      return false;
    }
    var p := new PrintBuffer(buf, len, true, format, true);
    assert p.Text() == "";
    ok := PrintRoot(p, item, t, v);
  }
}
