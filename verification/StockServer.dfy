/**
 The stock table as linked nodes updated in place, and the sequential server commands on it.
 Nodes live in a growing store; a pointer is a node's number in it and NULL is -1.  Every method
 is proved against the tree functions of `StockTree` and `StockText`.
 */
module StockServer {
  import opened Machine
  import opened StockTree
  import opened StockText

  datatype Cell = Cell(id: int32, count: int32, price: int32, left: int, right: int) {
    function Rec(): Record { Record(id, count, price) }
  }

  /** How many nodes are as young as `i`; children have a smaller rank. */
  function Rank(h: seq<Cell>, i: int): nat { if 0 <= i < |h| then |h| - i else 0 }

  /** The nodes reachable from `i`.  A node is always older than its children. */
  function Below(h: seq<Cell>, i: int): set<int>
    decreases Rank(h, i)
  {
    if !(0 <= i < |h|) then {}
    else {i} + (if h[i].left > i then Below(h, h[i].left) else {}) + (if h[i].right > i then Below(h, h[i].right) else {})
  }

  /** From `i` on the nodes form a tree: children are younger, subtrees share no node. */
  predicate Sound(h: seq<Cell>, i: int)
    decreases Rank(h, i)
  {
    i != NULL ==>
      && 0 <= i < |h|
      && (h[i].left == NULL || i < h[i].left) && (h[i].right == NULL || i < h[i].right)
      && Sound(h, h[i].left) && Sound(h, h[i].right)
      && Below(h, h[i].left) !! Below(h, h[i].right)
  }

  function TreeOf(h: seq<Cell>, i: int): Tree
    requires Sound(h, i)
    decreases Rank(h, i)
  {
    if i == NULL then Leaf else Node(TreeOf(h, h[i].left), h[i].Rec(), TreeOf(h, h[i].right))
  }

  /** Every node below `i` is the same in both stores. */
  ghost predicate SameBelow(h: seq<Cell>, h': seq<Cell>, i: int) {
    |h| <= |h'| && forall k :: k in Below(h, i) ==> 0 <= k < |h| && h[k] == h'[k]
  }

  lemma {:induction false} BelowInRange(h: seq<Cell>, i: int)
    ensures forall k :: k in Below(h, i) ==> i <= k < |h|
    decreases Rank(h, i)
  {
    if 0 <= i < |h| {
      if h[i].left > i { BelowInRange(h, h[i].left); }
      if h[i].right > i { BelowInRange(h, h[i].right); }
    }
  }

  /** What hangs below `i` depends only on the nodes below `i`. */
  lemma {:induction false} Frame(h: seq<Cell>, h': seq<Cell>, i: int)
    requires Sound(h, i) && SameBelow(h, h', i)
    ensures Sound(h', i) && Below(h', i) == Below(h, i) && TreeOf(h', i) == TreeOf(h, i)
    decreases Rank(h, i)
  {
    if i != NULL {
      assert i in Below(h, i);
      Frame(h, h', h[i].left);
      Frame(h, h', h[i].right);
    }
  }

  /** `find`: a pure walk down the nodes. */
  function FindCell(h: seq<Cell>, id: int, root: int): (r: int)
    requires Sound(h, root)
    ensures r == NULL || r in Below(h, root)
    ensures 0 <= r < |h| || r == NULL
    ensures Find(TreeOf(h, root), id) == if r == NULL then None else Some(h[r].Rec())
    decreases Rank(h, root)
  {
    if root == NULL then NULL
    else if id == h[root].id then root
    else if id > h[root].id then FindCell(h, id, h[root].right)
    else FindCell(h, id, h[root].left)
  }

  /** Writing the count of the node that was found changes exactly that record of the tree. */
  lemma {:induction false} CountWritten(h: seq<Cell>, id: int, root: int, count: int32)
    requires Sound(h, root) && FindCell(h, id, root) != NULL
    ensures var k := FindCell(h, id, root);
      var h' := h[k := h[k].(count := count)];
      Sound(h', root) && Below(h', root) == Below(h, root) && TreeOf(h', root) == SetCount(TreeOf(h, root), id, count)
    decreases Rank(h, root)
  {
    hide Below, Find;
    var k := FindCell(h, id, root);
    var h' := h[k := h[k].(count := count)];
    var l, r := h[root].left, h[root].right;
    RootApart(h, root);
    if id == h[root].id {
      Frame(h, h', l);
      Frame(h, h', r);
    } else if id > h[root].id {
      CountWritten(h, id, r, count);
      Frame(h, h', l);
    } else {
      CountWritten(h, id, l, count);
      Frame(h, h', r);
    }
    Rejoin(h, h', root);
  }

  lemma RootApart(h: seq<Cell>, i: int)
    requires Sound(h, i) && i != NULL
    ensures i !in Below(h, h[i].left) && i !in Below(h, h[i].right)
    ensures forall k :: k in Below(h, h[i].left) || k in Below(h, h[i].right) ==> 0 <= k < |h|
  {
    BelowInRange(h, h[i].left);
    BelowInRange(h, h[i].right);
  }

  /** A node whose subtrees kept their nodes. */
  lemma Rejoin(h: seq<Cell>, h': seq<Cell>, i: int)
    requires Sound(h, i) && 0 <= i < |h| == |h'| && h'[i].left == h[i].left && h'[i].right == h[i].right
    requires Sound(h', h[i].left) && Below(h', h[i].left) == Below(h, h[i].left)
    requires Sound(h', h[i].right) && Below(h', h[i].right) == Below(h, h[i].right)
    ensures Sound(h', i) && Below(h', i) == Below(h, i)
    ensures TreeOf(h', i) == Node(TreeOf(h', h[i].left), h'[i].Rec(), TreeOf(h', h[i].right))
  {}

  /** The outcome of adding `delta`, which need be no `int`, to the count of the record with this id. */
  ghost predicate CountBecomes(t: Tree, t': Tree, st: Status, id: int, delta: int) {
    match Find(t, id)
    case None => st == ERROR && t' == t
    case Some(x) =>
      var sum := Wrap32(x.count + delta);
      if sum < 0 then st == NOTENOUGHERR && t' == t
      else st == SUCCESS && Find(t', id) == Some(x.(count := sum))
  }

  lemma ModifiedCount(t: Tree, id: int, delta: int)
    ensures var (t', st) := Modify(t, id, Wrap32(delta)); CountBecomes(t, t', st, id, delta)
  {
    hide SetCount, Preorder;
    if Find(t, id).Some? {
      var x := Find(t, id).value;
      WrapTwice(x.count, delta);
      SetCountLocal(t, id, Wrap32(x.count + delta));
    }
  }

  lemma WrapTwice(n: int, delta: int)
    ensures Wrap32(n + Wrap32(delta)) == Wrap32(n + delta)
  {
    var k := (delta - INT_MIN) / TWO32;
    assert Wrap32(delta) == delta - k * TWO32;
    assert (n + delta - INT_MIN - k * TWO32) % TWO32 == (n + delta - INT_MIN) % TWO32 by { ModShift(n + delta - INT_MIN, k); }
  }

  lemma ModShift(n: int, k: int)
    ensures (n - k * TWO32) % TWO32 == n % TWO32
  {
    var q, r := n / TWO32, n % TWO32;
    assert n - k * TWO32 == (q - k) * TWO32 + r;
  }

  class Server {
    var cells: seq<Cell>
    var root: int

    ghost predicate Valid()
      reads this
    {
      Sound(cells, root)
    }

    ghost function Table(): Tree
      requires Valid()
      reads this
    {
      TreeOf(cells, root)
    }

    constructor ()
      ensures Valid() && Table() == Leaf
    {
      cells, root := [], NULL;
    }

    /** `insert` into the tree at `i`; gives the pointer that replaces `i`. */
    method InsertCell(i: int, id: int32, count: int32, price: int32) returns (r: int)
      requires Sound(cells, i)
      modifies `cells
      ensures Sound(cells, r) && r != NULL
      ensures TreeOf(cells, r) == Insert(old(TreeOf(cells, i)), Record(id, count, price))
      ensures Below(cells, r) == old(Below(cells, i)) + {old(|cells|)}
      ensures |cells| == old(|cells|) + 1 && r == if i == NULL then old(|cells|) else i
      ensures forall k :: 0 <= k < old(|cells|) && k !in old(Below(cells, i)) ==> cells[k] == old(cells[k])
      decreases Rank(cells, i)
    {
      if i == NULL {
        r := |cells|;
        cells := cells + [Cell(id, count, price, NULL, NULL)];
      } else {
        ghost var h := cells;
        BelowInRange(h, h[i].left);
        BelowInRange(h, h[i].right);
        if cells[i].id > id {
          var l := InsertCell(cells[i].left, id, count, price);
          HangLeft(h, cells, i, l);
          cells := cells[i := cells[i].(left := l)];
        } else {
          var x := InsertCell(cells[i].right, id, count, price);
          HangRight(h, cells, i, x);
          cells := cells[i := cells[i].(right := x)];
        }
        r := i;
      }
    }

    /** `modify`. */
    method ModifyStock(id: int, delta: int32) returns (st: Status)
      requires Valid()
      modifies `cells
      ensures Valid() && (Table(), st) == Modify(old(Table()), id, delta)
    {
      var stock := FindCell(cells, id, root);
      if stock == NULL { return ERROR; }
      if Wrap32(cells[stock].count + delta) < 0 { return NOTENOUGHERR; }
      CountWritten(cells, id, root, Wrap32(cells[stock].count + delta));
      cells := cells[stock := cells[stock].(count := Wrap32(cells[stock].count + delta))];
      return SUCCESS;
    }

    method SellStock(id: int32, n: int32) returns (st: Status)
      requires Valid()
      modifies `cells
      ensures Valid() && (Table(), st) == Execute(old(Table()), Sell(id, n))
      ensures CountBecomes(old(Table()), Table(), st, id, n)
    {
      hide SetCount, Preorder, Find;
      ModifiedCount(Table(), id, n);
      st := ModifyStock(id, n);
    }

    method BuyStock(id: int32, n: int32) returns (st: Status)
      requires Valid()
      modifies `cells
      ensures Valid() && (Table(), st) == Execute(old(Table()), Buy(id, n))
      ensures CountBecomes(old(Table()), Table(), st, id, 0 - n)
    {
      hide SetCount, Preorder, Find;
      ModifiedCount(Table(), id, 0 - n);
      st := ModifyStock(id, Wrap32(0 - n));
    }

    /** `read_stockfile` on the text of the file; `w0` is what the word buffers hold at the start. */
    method ReadStockfile(text: string, w0: Words)
      requires Valid()
      modifies this
      ensures Valid() && Table() == Read(old(Table()), text, w0)
    {
      hide Scan, Atoi, Sound, TreeOf, Insert;
      var rest, w, more := text, w0, true;
      while more
        invariant Valid()
        invariant (if more then Read(Table(), rest, w) else Table()) == Read(old(Table()), text, w0)
        decreases more, |rest|
      {
        var (w', rest') := Scan(rest, w);
        root := InsertCell(root, Atoi(w'.id), Atoi(w'.count), Atoi(w'.price));
        more := rest' != "";
        rest, w := rest', w';
      }
    }

    /** `_print_to_buf`: appends the lines of the tree at `i` to a buffer of `room` bytes, or runs over its end. */
    method PrintToBuf(i: int, buf0: string, room: nat) returns (buf: Option<string>, st: Status)
      requires Sound(cells, i)
      ensures buf == PrintInto(TreeOf(cells, i), buf0, room)
      ensures st == if i == NULL then ERROR else SUCCESS
      decreases Rank(cells, i)
    {
      hide Line;
      if i == NULL { return Some(buf0), ERROR; }
      var line := Line(cells[i].Rec());
      if |buf0 + line| >= room { return None, SUCCESS; }
      var b1, s1 := PrintToBuf(cells[i].left, buf0 + line, room);
      if b1.None? { return None, SUCCESS; }
      var b2, s2 := PrintToBuf(cells[i].right, b1.value, room);
      return b2, SUCCESS;
    }

    /** The buffer that `fsync_stockfile` builds, if it holds the text, loaded into a fresh server restores the table. */
    method SaveAndLoad(w: Words, room: nat) returns (buf: Option<string>, other: Server)
      requires Valid() && room > 0
      ensures buf.Some? <==> |Print(Table())| < room
      ensures fresh(other) && other.Valid() && Table() == old(Table())
      ensures buf.Some? && Ordered(Table()) && Table() != Leaf ==> other.Table() == Table()
    {
      var st: Status;
      buf, st := PrintToBuf(root, "", room);
      PrintIntoExactly(Table(), "", room);
      other := new Server();
      if buf.Some? {
        other.ReadStockfile(buf.value, w);
        SaveLoadExactly(Table(), w, room);
      }
    }
  }

  /** Hanging the grown left subtree `sub` back under node `i`. */
  lemma HangLeft(h: seq<Cell>, h1: seq<Cell>, i: int, sub: int)
    requires Sound(h, i) && 0 <= i < |h| && |h1| == |h| + 1 && Sound(h1, sub) && sub > i
    requires Below(h1, sub) == Below(h, h[i].left) + {|h|}
    requires forall k :: 0 <= k < |h| && k !in Below(h, h[i].left) ==> h1[k] == h[k]
    ensures var h2 := h1[i := h1[i].(left := sub)];
      && Sound(h2, i) && Below(h2, i) == Below(h, i) + {|h|}
      && TreeOf(h2, i) == Node(TreeOf(h1, sub), h[i].Rec(), TreeOf(h, h[i].right))
  {
    var h2 := h1[i := h1[i].(left := sub)];
    BelowInRange(h, h[i].left);
    BelowInRange(h, h[i].right);
    BelowInRange(h1, sub);
    Frame(h, h2, h[i].right);
    Frame(h1, h2, sub);
  }

  /** The same on the right. */
  lemma HangRight(h: seq<Cell>, h1: seq<Cell>, i: int, sub: int)
    requires Sound(h, i) && 0 <= i < |h| && |h1| == |h| + 1 && Sound(h1, sub) && sub > i
    requires Below(h1, sub) == Below(h, h[i].right) + {|h|}
    requires forall k :: 0 <= k < |h| && k !in Below(h, h[i].right) ==> h1[k] == h[k]
    ensures var h2 := h1[i := h1[i].(right := sub)];
      && Sound(h2, i) && Below(h2, i) == Below(h, i) + {|h|}
      && TreeOf(h2, i) == Node(TreeOf(h, h[i].left), h[i].Rec(), TreeOf(h1, sub))
  {
    var h2 := h1[i := h1[i].(right := sub)];
    BelowInRange(h, h[i].left);
    BelowInRange(h, h[i].right);
    BelowInRange(h1, sub);
    Frame(h, h2, h[i].left);
    Frame(h1, h2, sub);
  }
}
