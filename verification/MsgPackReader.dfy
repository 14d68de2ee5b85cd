/** The resumable MsgPack traversal of ElfReader (util/vkgcElfReader.cpp).

The reader keeps an explicit stack of iterator frames and moves from one item to the next on
each call.  The module proves that the items it stops at are those of the recursive pre-order
walk of the document, each with the right node and map level, and that it then ends.
*/
module MsgPackReader {
  datatype Node =
    | Leaf(value: int)
    | MapNode(entries: seq<Entry>)
    | ArrayNode(elements: seq<Node>)

  datatype Entry = Entry(key: Node, value: Node)

  datatype Status =
    | MapKey | MapValue | Array | ArrayValue | MapBegin | MapPair | MapEnd | ArrayEnd

  // ----- the recursive walk -----

  /** What a client sees at one stop: the iterator status, the node, and the map level. */
  datatype Item = Item(status: Status, node: Node, level: int)

  /** The items of a whole node; `leaf` is the status of a node that is no container. */
  ghost function Walk(n: Node, level: int, leaf: Status): seq<Item>
    decreases n, 1, 0
  {
    match n
    case Leaf(_) => [Item(leaf, n, level)]
    case MapNode(_) => [Item(MapBegin, n, level)] + WalkEntries(n, 0, level + 1)
    case ArrayNode(_) => [Item(Array, n, level)] + WalkElements(n, 0, level)
  }

  ghost function WalkEntries(n: Node, i: nat, level: int): seq<Item>
    requires n.MapNode? && i <= |n.entries|
    decreases n, 0, |n.entries| - i
  {
    if i == |n.entries| then [Item(MapEnd, n, level)]
    else [Item(MapPair, n, level), Item(MapKey, n.entries[i].key, level)] +
         Walk(n.entries[i].value, level, MapValue) + WalkEntries(n, i + 1, level)
  }

  ghost function WalkElements(n: Node, i: nat, level: int): seq<Item>
    requires n.ArrayNode? && i <= |n.elements|
    decreases n, 0, |n.elements| - i
  {
    if i == |n.elements| then [Item(ArrayEnd, n, level)]
    else Walk(n.elements[i], level, ArrayValue) + WalkElements(n, i + 1, level)
  }

  /** The walk of {1: [2, {}]}. */
  lemma WalkOfNested()
    ensures var inner := MapNode([]);
            var list := ArrayNode([Leaf(2), inner]);
            var root := MapNode([Entry(Leaf(1), list)]);
            Walk(root, 0, MapValue) ==
            [Item(MapBegin, root, 0), Item(MapPair, root, 1), Item(MapKey, Leaf(1), 1), Item(Array, list, 1), Item(ArrayValue, Leaf(2), 1),
             Item(MapBegin, inner, 1), Item(MapEnd, inner, 2), Item(ArrayEnd, list, 1), Item(MapEnd, root, 1)]
  {
    var inner := MapNode([]);
    var list := ArrayNode([Leaf(2), inner]);
    var root := MapNode([Entry(Leaf(1), list)]);
    assert WalkElements(list, 2, 1) == [Item(ArrayEnd, list, 1)];
    assert Walk(inner, 1, ArrayValue) == [Item(MapBegin, inner, 1), Item(MapEnd, inner, 2)];
    assert WalkElements(list, 1, 1) == [Item(MapBegin, inner, 1), Item(MapEnd, inner, 2), Item(ArrayEnd, list, 1)];
    assert Walk(Leaf(2), 1, ArrayValue) == [Item(ArrayValue, Leaf(2), 1)];
    assert WalkElements(list, 0, 1) == [Item(ArrayValue, Leaf(2), 1)] + WalkElements(list, 1, 1);
    assert Walk(list, 1, MapValue) == [Item(Array, list, 1)] + WalkElements(list, 0, 1);
    assert WalkEntries(root, 1, 1) == [Item(MapEnd, root, 1)];
    assert root.entries[0].key == Leaf(1) && root.entries[0].value == list;
    assert WalkEntries(root, 0, 1) ==
           [Item(MapPair, root, 1), Item(MapKey, Leaf(1), 1)] + Walk(list, 1, MapValue) + WalkEntries(root, 1, 1);
    assert Walk(root, 0, MapValue) == [Item(MapBegin, root, 0)] + WalkEntries(root, 0, 1);
  }

  // ----- iterator frames -----

  /** MsgPackIterator.  A map or array iterator is a container's contents and a position in it,
      so the end iterator is the position |entries| or |elements|. */
  datatype Frame = Frame(status: Status, entries: seq<Entry>, mapIt: nat, elements: seq<Node>, arrayIt: nat, node: Node)
  {
    predicate OnMap() { node.MapNode? && entries == node.entries }

    predicate OnArray() { node.ArrayNode? && elements == node.elements }

    /** getMsgNode for a stack that has this frame on top. */
    function MsgNode(): Node
      requires status == ArrayValue ==> arrayIt < |elements|
      requires status in {MapKey, MapValue} ==> mapIt < |entries|
    {
      if status == ArrayValue then elements[arrayIt]
      else if status == MapValue then entries[mapIt].value
      else if status == MapKey then entries[mapIt].key
      else node
    }
  }

  type Stack = seq<Frame>

  function Below(s: Stack, k: nat): Stack
    requires k <= |s|
  {
    s[..|s| - k]
  }

  /** A stack whose top frame waits for one of its children: a path of open containers, level maps deep. */
  ghost predicate Waiting(s: Stack, level: int)
    decreases |s|
  {
    if s == [] then level == 0
    else
      var top := s[|s| - 1];
      match top.status
      case Array => top.OnArray() && top.arrayIt < |top.elements| && Waiting(Below(s, 1), level)
      case MapPair => top.OnMap() && top.mapIt < |top.entries| && InMap(s) && Waiting(Below(s, 2), level - 1)
      case _ => false
  }

  /** The top frame runs over the map that the frame below it has begun. */
  ghost predicate InMap(s: Stack)
    requires s != []
  {
    |s| >= 2 && s[|s| - 2].status == MapBegin && s[|s| - 2].node == s[|s| - 1].node
  }

  /** The top frame stands on an entry of the frame below it. */
  ghost predicate InPair(s: Stack)
    requires s != []
  {
    |s| >= 2 && s[|s| - 2].status == MapPair &&
    s[|s| - 2].entries == s[|s| - 1].entries && s[|s| - 2].mapIt == s[|s| - 1].mapIt
  }

  ghost predicate InArray(s: Stack)
    requires s != []
  {
    |s| >= 2 && s[|s| - 2].status == Array && s[|s| - 2].node == s[|s| - 1].node
  }

  /** The reachable stacks. */
  ghost predicate Wellformed(s: Stack, level: int)
  {
    if s == [] then level == 0
    else
      var top := s[|s| - 1];
      match top.status
      case MapBegin => top.node.MapNode? && Waiting(Below(s, 1), level)
      case MapPair => Waiting(s, level)
      case MapKey => InPair(s) && Waiting(Below(s, 1), level)
      case MapValue => InPair(s) && Waiting(Below(s, 1), level) && top.entries[top.mapIt].value.Leaf?
      case Array => top.OnArray() && top.arrayIt == 0 && Waiting(Below(s, 1), level)
      case ArrayValue =>
        |s| >= 2 && s[|s| - 2].status == Array && Waiting(Below(s, 1), level) &&
        s[|s| - 2].elements == top.elements && s[|s| - 2].arrayIt == top.arrayIt && top.elements[top.arrayIt].Leaf?
      case MapEnd => top.OnMap() && InMap(s) && Waiting(Below(s, 2), level - 1)
      case ArrayEnd => top.OnArray() && InArray(s) && Waiting(Below(s, 2), level)
  }

  // ----- the items still to come -----

  /** How many maps have been entered and not yet left: each has one frame that runs over its pairs. */
  function OpenMaps(s: Stack): nat
    decreases |s|
  {
    if s == [] then 0
    else OpenMaps(Below(s, 1)) + if s[|s| - 1].status in {MapPair, MapEnd} then 1 else 0
  }

  lemma {:induction false} WaitingLevel(s: Stack, level: int)
    requires Waiting(s, level)
    ensures level == OpenMaps(s)
    decreases |s|
  {
    if s != [] {
      if s[|s| - 1].status == Array {
        WaitingLevel(Below(s, 1), level);
      } else {
        WaitingLevel(Below(s, 2), level - 1);
        OpenMapsBelow(s);
      }
    }
  }

  lemma OpenMapsBelow(s: Stack)
    requires |s| >= 2 && s[|s| - 1].status in {MapPair, MapEnd} && s[|s| - 2].status == MapBegin
    ensures OpenMaps(s) == OpenMaps(Below(s, 2)) + 1
  {
    assert Below(Below(s, 1), 1) == Below(s, 2);
  }

  /** In every reachable state the map level is the number of open maps, so it is never negative
      and it is zero when the stack is empty. */
  lemma LevelIsOpenMaps(s: Stack, level: int)
    requires Wellformed(s, level)
    ensures level == OpenMaps(s)
  {
    if s != [] {
      var top := s[|s| - 1];
      if top.status == MapPair {
        WaitingLevel(s, level);
      } else if top.status == MapEnd {
        WaitingLevel(Below(s, 2), level - 1);
        OpenMapsBelow(s);
      } else if top.status == ArrayEnd {
        WaitingLevel(Below(s, 2), level);
        assert Below(Below(s, 1), 1) == Below(s, 2);
      } else {
        WaitingLevel(Below(s, 1), level);
      }
    }
  }

  /** The items after the child that the top frame waits for. */
  ghost function After(s: Stack, level: int): seq<Item>
    requires Waiting(s, level)
    decreases |s|
  {
    if s == [] then []
    else
      var top := s[|s| - 1];
      if top.status == Array then WalkElements(top.node, top.arrayIt + 1, level) + After(Below(s, 1), level)
      else WalkEntries(top.node, top.mapIt + 1, level) + After(Below(s, 2), level - 1)
  }

  /** The items from the current one on. */
  ghost function Remaining(s: Stack, level: int): seq<Item>
    requires Wellformed(s, level)
  {
    if s == [] then []
    else
      var top := s[|s| - 1];
      match top.status
      case MapBegin => Walk(top.node, level, MapValue) + After(Below(s, 1), level)
      case MapPair => WalkEntries(top.node, top.mapIt, level) + After(Below(s, 2), level - 1)
      case MapKey =>
        [Item(MapKey, top.MsgNode(), level)] + Walk(top.entries[top.mapIt].value, level, MapValue) +
        After(Below(s, 1), level)
      case MapValue => [Item(MapValue, top.MsgNode(), level)] + After(Below(s, 1), level)
      case Array => Walk(top.node, level, ArrayValue) + After(Below(s, 1), level)
      case ArrayValue => [Item(ArrayValue, top.MsgNode(), level)] + After(Below(s, 1), level)
      case MapEnd => [Item(MapEnd, top.node, level)] + After(Below(s, 2), level - 1)
      case ArrayEnd => [Item(ArrayEnd, top.node, level)] + After(Below(s, 2), level)
  }

  ghost function Current(s: Stack, level: int): Item
    requires s != [] && Wellformed(s, level)
  {
    Item(s[|s| - 1].status, s[|s| - 1].MsgNode(), level)
  }

  /** A container frame for `n`, or a frame with status `leaf` when `n` is no container: the shared
      three-way choice that the traversal makes when it turns to a child. */
  function Enter(frame: Frame, n: Node, leaf: Status): Frame
  {
    match n
    case MapNode(_) => frame.(status := MapBegin, node := n)
    case ArrayNode(es) => frame.(status := Array, elements := es, arrayIt := 0, node := n)
    case Leaf(_) => frame.(status := leaf)
  }

  // ----- the moves of one call -----

  lemma Push(s: Stack, f: Frame)
    ensures Below(s + [f], 1) == s && (s + [f])[|s|] == f
    ensures s != [] ==> (s + [f])[|s| - 1] == s[|s| - 1] && Below(s + [f], 2) == Below(s, 1)
  {
  }

  lemma Retop(s: Stack, f: Frame)
    requires s != []
    ensures s[|s| - 1 := f] == Below(s, 1) + [f]
  {
  }

  /** Entering a child of a waiting container leads to exactly the items of that child, then the rest. */
  lemma Entered(s: Stack, level: int, frame: Frame, n: Node)
    requires Waiting(s, level) && s != []
    requires s[|s| - 1].status == MapPair ==>
               frame.entries == s[|s| - 1].entries && frame.mapIt == s[|s| - 1].mapIt && n == frame.entries[frame.mapIt].value
    requires s[|s| - 1].status == Array && n.Leaf? ==>
               frame.elements == s[|s| - 1].elements && frame.arrayIt == s[|s| - 1].arrayIt && n == frame.elements[frame.arrayIt]
    ensures var leaf := if s[|s| - 1].status == MapPair then MapValue else ArrayValue;
            var s' := s + [Enter(frame, n, leaf)];
            Wellformed(s', level) && Remaining(s', level) == Walk(n, level, leaf) + After(s, level)
  {
    var leaf := if s[|s| - 1].status == MapPair then MapValue else ArrayValue;
    Push(s, Enter(frame, n, leaf));
  }

  function NextMapFrame(f: Frame): Frame
  {
    var g := f.(mapIt := f.mapIt + 1);
    if g.mapIt == |g.entries| then g.(status := MapEnd) else g
  }

  lemma Assoc<T>(a: seq<T>, b: seq<T>, c: seq<T>)
    ensures a + b + c == a + (b + c)
  {
  }

  lemma AdvancedMap(s: Stack, level: int)
    requires Waiting(s, level) && s != [] && s[|s| - 1].status == MapPair
    ensures var s' := s[|s| - 1 := NextMapFrame(s[|s| - 1])];
            Wellformed(s', level) && Remaining(s', level) == After(s, level)
  {
    hide WalkEntries;
    hide Walk;
    hide After;
    var top := s[|s| - 1];
    var s' := s[|s| - 1 := NextMapFrame(top)];
    assert Below(s', 2) == Below(s, 2) && InMap(s');
    AfterPair(s, level);
    if top.mapIt + 1 == |top.entries| {
      LastEntry(top.node, level);
    } else {
      assert Waiting(s', level);
    }
  }

  lemma LastEntry(n: Node, level: int)
    requires n.MapNode?
    ensures WalkEntries(n, |n.entries|, level) == [Item(MapEnd, n, level)]
  {
  }

  lemma AfterPair(s: Stack, level: int)
    requires Waiting(s, level) && s != [] && s[|s| - 1].status == MapPair
    ensures var top := s[|s| - 1];
            After(s, level) == WalkEntries(top.node, top.mapIt + 1, level) + After(Below(s, 2), level - 1)
  {
    hide WalkEntries;
  }

  lemma AfterElement(s: Stack, level: int)
    requires Waiting(s, level) && s != [] && s[|s| - 1].status == Array
    ensures var top := s[|s| - 1];
            After(s, level) == WalkElements(top.node, top.arrayIt + 1, level) + After(Below(s, 1), level)
  {
    hide WalkElements;
  }

  function NextArrayFrame(f: Frame): Frame
    requires f.arrayIt < |f.elements|
  {
    f.(arrayIt := f.arrayIt + 1)
  }

  /** The frame for the element that array frame `g` stands on, or the end frame. */
  function ElementFrame(g: Frame): Frame
    requires g.arrayIt <= |g.elements|
  {
    if g.arrayIt == |g.elements| then g.(status := ArrayEnd)
    else Enter(g, g.elements[g.arrayIt], ArrayValue)
  }

  /** Pushing the frame for the element that the top array frame stands on. */
  lemma EnteredElement(s: Stack, level: int)
    requires s != []
    requires var top := s[|s| - 1];
             top.status == Array && top.OnArray() && top.arrayIt <= |top.elements| && Waiting(Below(s, 1), level)
    ensures var top := s[|s| - 1];
            var s' := s + [ElementFrame(top)];
            Wellformed(s', level) &&
            Remaining(s', level) == WalkElements(top.node, top.arrayIt, level) + After(Below(s, 1), level)
  {
    hide Walk;
    var top := s[|s| - 1];
    Push(s, ElementFrame(top));
    if top.arrayIt < |top.elements| {
      hide After;
      hide Remaining;
      hide Wellformed;
      Entered(s, level, top, top.elements[top.arrayIt]);
      AfterElement(s, level);
      Assoc(Walk(top.elements[top.arrayIt], level, ArrayValue), WalkElements(top.node, top.arrayIt + 1, level),
            After(Below(s, 1), level));
    }
  }

  lemma AdvancedArray(s: Stack, level: int)
    requires Waiting(s, level) && s != [] && s[|s| - 1].status == Array
    ensures var g := NextArrayFrame(s[|s| - 1]);
            var s' := s[|s| - 1 := g] + [ElementFrame(g)];
            Wellformed(s', level) && Remaining(s', level) == After(s, level)
  {
    hide Remaining;
    hide Wellformed;
    hide WalkElements;
    hide After;
    hide ElementFrame;
    var g := NextArrayFrame(s[|s| - 1]);
    Retop(s, g);
    Push(Below(s, 1), g);
    AfterElement(s, level);
    EnteredElement(s[|s| - 1 := g], level);
  }

  lemma BegunMap(s: Stack, level: int)
    requires s != [] && s[|s| - 1].status == MapBegin && Wellformed(s, level)
    ensures var top := s[|s| - 1];
            var f := top.(entries := top.node.entries, mapIt := 0, status := if top.node.entries == [] then MapEnd else MapPair);
            Wellformed(s + [f], level + 1) &&
            Remaining(s, level) == [Current(s, level)] + Remaining(s + [f], level + 1)
  {
    hide WalkEntries;
    hide After;
    var top := s[|s| - 1];
    var f := top.(entries := top.node.entries, mapIt := 0, status := if top.node.entries == [] then MapEnd else MapPair);
    Push(s, f);
    LastEntry(top.node, level + 1);
    Assoc([Current(s, level)], WalkEntries(top.node, 0, level + 1), After(Below(s, 1), level));
  }

  lemma BegunPair(s: Stack, level: int)
    requires s != [] && s[|s| - 1].status == MapPair && Wellformed(s, level)
    ensures var f := s[|s| - 1].(status := MapKey);
            Wellformed(s + [f], level) && !Waiting(s + [f], level) &&
            Remaining(s, level) == [Current(s, level)] + Remaining(s + [f], level)
  {
    hide Walk;
    hide WalkEntries;
    hide After;
    var top := s[|s| - 1];
    var f := top.(status := MapKey);
    Push(s, f);
    AfterPair(s, level);
    OneEntry(top.node, top.mapIt, level, After(Below(s, 2), level - 1));
  }

  lemma OneEntry(n: Node, i: nat, level: int, after: seq<Item>)
    requires n.MapNode? && i < |n.entries|
    ensures WalkEntries(n, i, level) + after ==
            [Item(MapPair, n, level)] +
            ([Item(MapKey, n.entries[i].key, level)] + Walk(n.entries[i].value, level, MapValue) +
             (WalkEntries(n, i + 1, level) + after))
  {
    hide Walk;
  }

  lemma LeftKey(s: Stack, level: int)
    requires s != [] && s[|s| - 1].status == MapKey && Wellformed(s, level)
    ensures s[|s| - 1].mapIt < |s[|s| - 1].entries|
    ensures var top := s[|s| - 1];
            var s' := s[|s| - 1 := Enter(top, top.entries[top.mapIt].value, MapValue)];
            Wellformed(s', level) && Remaining(s, level) == [Current(s, level)] + Remaining(s', level)
  {
    hide Walk;
    hide After;
    var top := s[|s| - 1];
    var value := top.entries[top.mapIt].value;
    var below := Below(s, 1);
    Assoc([Current(s, level)], Walk(value, level, MapValue), After(below, level));
    assert Remaining(s, level) == [Current(s, level)] + (Walk(value, level, MapValue) + After(below, level));
    hide Remaining;
    assert below[|below| - 1] == s[|s| - 2];
    Entered(below, level, top, value);
    hide Wellformed;
    Retop(s, Enter(top, value, MapValue));
  }

  lemma BegunArray(s: Stack, level: int)
    requires s != [] && s[|s| - 1].status == Array && Wellformed(s, level)
    ensures var s' := s + [ElementFrame(s[|s| - 1])];
            Wellformed(s', level) && Remaining(s, level) == [Current(s, level)] + Remaining(s', level)
  {
    hide WalkElements;
    hide After;
    hide ElementFrame;
    var top := s[|s| - 1];
    Assoc([Current(s, level)], WalkElements(top.node, 0, level), After(Below(s, 1), level));
    assert Remaining(s, level) == [Current(s, level)] + (WalkElements(top.node, 0, level) + After(Below(s, 1), level));
    hide Remaining;
    EnteredElement(s, level);
  }

  class Reader {
    var m_iteratorStack: Stack
    var m_msgPackMapLevel: int

    ghost predicate Valid()
      reads this
    {
      Wellformed(m_iteratorStack, m_msgPackMapLevel)
    }

    /** initMsgPackDocument, for a document whose root is a map. */
    constructor (root: Node)
      requires root.MapNode?
      ensures Valid() && m_iteratorStack != []
      ensures Remaining(m_iteratorStack, m_msgPackMapLevel) == Walk(root, 0, MapValue)
    {
      m_iteratorStack := [Frame(MapBegin, [], 0, [], 0, root)];
      m_msgPackMapLevel := 0;
      new;
      assert Below(m_iteratorStack, 1) == [];
    }

    /** getNextMsgNode: on to the next item. */
    method GetNextMsgNode() returns (more: bool)
      requires Valid()
      modifies this
      ensures Valid() && more == (m_iteratorStack != [])
      ensures old(m_iteratorStack) == [] ==> m_iteratorStack == []
      ensures old(m_iteratorStack) != [] ==>
                old(Remaining(m_iteratorStack, m_msgPackMapLevel)) ==
                [old(Current(m_iteratorStack, m_msgPackMapLevel))] + Remaining(m_iteratorStack, m_msgPackMapLevel)
    {
      hide After;
      hide Remaining;
      hide Waiting;
      hide ElementFrame;
      hide Enter;
      if m_iteratorStack == [] {
        return false;
      }
      var curIter := m_iteratorStack[|m_iteratorStack| - 1];
      var skipPostCheck := false;
      ghost var s, level := m_iteratorStack, m_msgPackMapLevel;
      if curIter.status == MapBegin {
        BegunMap(s, level);
        curIter := curIter.(entries := curIter.node.entries, mapIt := 0);
        m_msgPackMapLevel := m_msgPackMapLevel + 1;
        if curIter.mapIt == |curIter.entries| {
          curIter := curIter.(status := MapEnd);
        } else {
          curIter := curIter.(status := MapPair);
        }
        m_iteratorStack := m_iteratorStack + [curIter];
        skipPostCheck := true;
      } else if curIter.status == MapPair {
        BegunPair(s, level);
        curIter := curIter.(status := MapKey);
        m_iteratorStack := m_iteratorStack + [curIter];
      } else if curIter.status == MapKey {
        LeftKey(s, level);
        curIter := Enter(curIter, curIter.entries[curIter.mapIt].value, MapValue);
        m_iteratorStack := m_iteratorStack[|m_iteratorStack| - 1 := curIter];
        skipPostCheck := true;
      } else if curIter.status == Array {
        BegunArray(s, level);
        curIter := curIter.(elements := curIter.node.elements, arrayIt := 0);
        assert curIter == s[|s| - 1];
        curIter := ElementFrame(curIter);
        m_iteratorStack := m_iteratorStack + [curIter];
        skipPostCheck := true;
      } else {
        Finished(s, level);
        assert |s| >= 2 ==> Below(Below(s, 1), 1) == Below(s, 2);
        m_iteratorStack := Below(m_iteratorStack, 1);
        if curIter.status == MapEnd {
          m_iteratorStack := Below(m_iteratorStack, 1);
          m_msgPackMapLevel := m_msgPackMapLevel - 1;
        } else if curIter.status == ArrayEnd {
          m_iteratorStack := Below(m_iteratorStack, 1);
        }
        if m_iteratorStack == [] {
          NothingAfter(m_iteratorStack, m_msgPackMapLevel);
        }
      }
      if m_iteratorStack != [] && !skipPostCheck {
        PostCheck();
      }
      more := m_iteratorStack != [];
    }

    /** The post check of getNextMsgNode: a container on top moves on to its next child. */
    method PostCheck()
      requires m_iteratorStack != []
      requires Waiting(m_iteratorStack, m_msgPackMapLevel) ||
               (Valid() && m_iteratorStack[|m_iteratorStack| - 1].status == MapKey)
      modifies this
      ensures Valid() && m_iteratorStack != []
      ensures old(Waiting(m_iteratorStack, m_msgPackMapLevel)) ==>
                Remaining(m_iteratorStack, m_msgPackMapLevel) == old(After(m_iteratorStack, m_msgPackMapLevel))
      ensures !old(Waiting(m_iteratorStack, m_msgPackMapLevel)) ==>
                m_iteratorStack == old(m_iteratorStack) && m_msgPackMapLevel == old(m_msgPackMapLevel)
    {
      hide After;
      hide Remaining;
      hide ElementFrame;
      var nextIter := m_iteratorStack[|m_iteratorStack| - 1];
      if nextIter.status == MapPair {
        AdvancedMap(m_iteratorStack, m_msgPackMapLevel);
        m_iteratorStack := m_iteratorStack[|m_iteratorStack| - 1 := NextMapFrame(nextIter)];
      } else if nextIter.status == Array {
        AdvancedArray(m_iteratorStack, m_msgPackMapLevel);
        nextIter := NextArrayFrame(nextIter);
        m_iteratorStack := m_iteratorStack[|m_iteratorStack| - 1 := nextIter];
        m_iteratorStack := m_iteratorStack + [ElementFrame(nextIter)];
      }
    }

    /** getMsgNode and getMsgIteratorStatus and getMsgMapLevel at one stop. */
    method GetItem() returns (item: Item)
      requires Valid() && m_iteratorStack != []
      ensures item == Current(m_iteratorStack, m_msgPackMapLevel)
    {
      var top := m_iteratorStack[|m_iteratorStack| - 1];
      item := Item(top.status, top.MsgNode(), m_msgPackMapLevel);
    }
  }

  /** The last item of a container or a plain value: what is left is what follows it. */
  lemma Finished(s: Stack, level: int)
    requires s != [] && Wellformed(s, level) && s[|s| - 1].status in {MapValue, ArrayValue, MapEnd, ArrayEnd}
    ensures var status := s[|s| - 1].status;
            var rest := Below(s, if status in {MapValue, ArrayValue} then 1 else 2);
            var level' := if status == MapEnd then level - 1 else level;
            Waiting(rest, level') && Remaining(s, level) == [Current(s, level)] + After(rest, level')
  {
  }

  lemma NothingAfter(s: Stack, level: int)
    requires s == [] && Waiting(s, level)
    ensures Wellformed(s, level) && Remaining(s, level) == After(s, level) == []
  {
  }

  lemma NothingRemains(s: Stack, level: int)
    requires s == [] && Wellformed(s, level)
    ensures Remaining(s, level) == []
  {
  }

  /** A client that reads a whole document, as PalMetadata dumping does, sees the recursive walk. */
  method ReadDocument(root: Node) returns (items: seq<Item>)
    requires root.MapNode?
    ensures items == Walk(root, 0, MapValue)
  {
    hide Walk;
    hide Wellformed;
    hide Current;
    hide Remaining;
    var reader := new Reader(root);
    items := [];
    var more := true;
    while more
      invariant reader.Valid() && more == (reader.m_iteratorStack != [])
      invariant items + Remaining(reader.m_iteratorStack, reader.m_msgPackMapLevel) == Walk(root, 0, MapValue)
      decreases |Remaining(reader.m_iteratorStack, reader.m_msgPackMapLevel)|
    {
      var item := reader.GetItem();
      items := items + [item];
      more := reader.GetNextMsgNode();
    }
    NothingRemains(reader.m_iteratorStack, reader.m_msgPackMapLevel);
  }
}
