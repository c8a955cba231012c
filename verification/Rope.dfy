/**
 Ropes: strings kept as a shared graph of pieces, with the walk that flattens one without a stack by
 leaving parent links in the nodes.
 */
module Ropes {
  import opened Buffers

  datatype Body = Str(s: string) | Concat(left: Node?, right: Node?)

  /** `rope_node`. What a node holds is fixed when it is made; the walk leaves its links in `temp` and `tempLeft`. */
  class Node {
    const body: Body
    ghost const height: nat
    var temp: Node?
    var tempLeft: bool

    constructor (body: Body, ghost height: nat)
      ensures this.body == body && this.height == height && temp == null && !tempLeft
    {
      this.body := body;
      this.height := height;
      temp := null;
      tempLeft := false;
    }
  }

  /** What constructions and appends build: a graph without cycles in which a right child is a concatenation. */
  ghost predicate Wf(n: Node)
    decreases n.height
  {
    match n.body
    case Str(_) => true
    case Concat(left, right) =>
      && (left != null ==> left.height < n.height && Wf(left))
      && (right != null ==> right.height < n.height && Wf(right) && right.body.Concat?)
  }

  ghost predicate WfOrNull(n: Node?) {
    n != null ==> Wf(n)
  }

  /** The text of a node: the right part was there before the left part was appended. */
  ghost function Text(n: Node?): string
    requires WfOrNull(n)
    decreases if n == null then 0 else n.height + 1
  {
    if n == null then ""
    else
      match n.body
      case Str(s) => s
      case Concat(left, right) => Text(right) + Text(left)
  }

  /** The nodes a rope is made of; shared nodes count once. */
  ghost function Nodes(n: Node?): set<Node>
    requires WfOrNull(n)
    decreases if n == null then 0 else n.height + 1
  {
    if n == null then {}
    else
      match n.body
      case Str(_) => {n}
      case Concat(left, right) => {n} + Nodes(left) + Nodes(right)
  }

  /** The steps the walk takes below a node: shared nodes count as often as they are met. */
  ghost function Cost(n: Node?): nat
    requires WfOrNull(n)
    decreases if n == null then 0 else n.height + 1
  {
    if n == null then 0
    else
      match n.body
      case Str(_) => 1
      case Concat(left, right) => 3 + Cost(left) + Cost(right)
  }

  lemma {:induction false} NodesClosed(root: Node, n: Node)
    requires Wf(root) && n in Nodes(root)
    ensures Wf(n) && Nodes(n) <= Nodes(root) && n in Nodes(n)
    decreases root.height
  {
    if n != root {
      var Concat(left, right) := root.body;
      if left != null && n in Nodes(left) {
        NodesClosed(left, n);
      } else {
        NodesClosed(right, n);
      }
    }
  }

  // ----- the walk -----

  /** A node on the way from the root to where the walk is, and whether the way goes on to its left child. */
  datatype Frame = Frame(node: Node, inLeft: bool) {
    ghost predicate Ok() {
      Wf(node) && node.body.Concat?
    }

    /** The child the way goes on to. */
    function Child(): Node?
      requires node.body.Concat?
    {
      if inLeft then node.body.left else node.body.right
    }

    /** What is still to be written when the walk comes back to the node. */
    ghost function Rest(): string
      requires Ok()
    {
      if inLeft then Text(node.body.right) else ""
    }

    ghost function Work(): nat
      requires Ok()
    {
      if inLeft then 2 + Cost(node.body.right) else 1
    }
  }

  /** The way from the root down to `r`; at the end of the walk both are gone. */
  ghost predicate Way(way: seq<Frame>, r: Node?, root: Node, down: bool)
    requires Wf(root)
  {
    && (forall i :: 0 <= i < |way| ==> way[i].Ok() && way[i].node in Nodes(root))
    && (forall i, j :: 0 <= i < j < |way| ==> way[j].node.height < way[i].node.height)
    && (if down then
          && r != null && r in Nodes(root) && Wf(r)
          && (forall i :: 0 <= i < |way| ==> r.height < way[i].node.height)
        else r == Top(way))
  }

  function Top(way: seq<Frame>): Node? {
    if way == [] then null else way[|way| - 1].node
  }

  function Above(way: seq<Frame>, i: nat): Node?
    requires i < |way|
  {
    if i == 0 then null else way[i - 1].node
  }

  /** The links the walk has left in the nodes: `temp` leads back along the way, `tempLeft` tells which way it went. */
  ghost predicate Linked(way: seq<Frame>, r: Node?, down: bool)
    reads set f | f in way :: f.node, if r == null then {} else {r}
  {
    && (forall i :: 0 <= i < |way| ==> way[i].node.tempLeft == way[i].inLeft && way[i].node.temp == Above(way, i))
    && (down ==> r != null && r.temp == Top(way))
  }

  ghost function Rest(way: seq<Frame>): string
    requires forall i :: 0 <= i < |way| ==> way[i].Ok()
  {
    if way == [] then "" else Rest(way[..|way| - 1]) + way[|way| - 1].Rest()
  }

  ghost function Work(way: seq<Frame>): nat
    requires forall i :: 0 <= i < |way| ==> way[i].Ok()
  {
    if way == [] then 0 else Work(way[..|way| - 1]) + way[|way| - 1].Work()
  }

  lemma {:induction false} WayPush(way: seq<Frame>, f: Frame)
    requires (forall i :: 0 <= i < |way| ==> way[i].Ok()) && f.Ok()
    ensures Rest(way + [f]) == Rest(way) + f.Rest() && Work(way + [f]) == Work(way) + f.Work()
    ensures Top(way + [f]) == f.node
  {
    assert (way + [f])[..|way|] == way;
  }

  /** Going down from `r` to one of its children: there is as much to write as before, and less to do. */
  lemma {:induction false} WayDown(way: seq<Frame>, r: Node, inLeft: bool, root: Node)
    requires Wf(root) && Way(way, r, root, true) && r.body.Concat? && Frame(r, inLeft).Child() != null
    requires inLeft || r.body.left == null
    ensures Wf(r)
    ensures var f := Frame(r, inLeft);
            && Way(way + [f], f.Child(), root, true)
            && Rest(way + [f]) + Text(f.Child()) == Rest(way) + Text(r)
            && Work(way + [f]) + Cost(f.Child()) < Work(way) + Cost(r)
  {
    hide Nodes, Rest, Work, Text, Cost;
    var f := Frame(r, inLeft);
    WayOn(way, f, root);
    WayPush(way, f);
    FrameParts(f);
    StringAssoc(Rest(way), f.Rest(), Text(f.Child()));
  }

  /** What a node holds is what is left for later and what the child holds. */
  lemma {:induction false} FrameParts(f: Frame)
    requires f.Ok() && (f.inLeft || f.node.body.left == null)
    ensures WfOrNull(f.Child()) && Text(f.node) == f.Rest() + Text(f.Child())
            && f.Work() + Cost(f.Child()) < Cost(f.node)
  {
  }

  lemma {:induction false} WayOn(way: seq<Frame>, f: Frame, root: Node)
    requires Wf(root) && f.node.body.Concat? && f.Child() != null && Way(way, f.node, root, true)
    ensures Way(way + [f], f.Child(), root, true)
  {
    hide Text, Cost, Rest, Work;
    NodesClosed(root, f.node);
    NodesClosed(f.node, f.Child());
  }

  lemma StringAssoc(a: string, b: string, c: string)
    ensures (a + b) + c == a + (b + c)
  {
  }

  /** Turning from the left child to the right one. */
  lemma {:induction false} WayTurn(way: seq<Frame>, r: Node, root: Node)
    requires Wf(root) && way != [] && Way(way, r, root, false) && way[|way| - 1].inLeft && r.body.right != null
    ensures var f := Frame(r, false);
            var way' := way[..|way| - 1] + [f];
            && Way(way', r.body.right, root, true)
            && Rest(way') + Text(r.body.right) == Rest(way)
            && Work(way') + Cost(r.body.right) < Work(way)
  {
    hide Nodes, Text, Cost;
    var up, f := way[..|way| - 1], Frame(r, false);
    assert Way(up, r, root, true);
    WayOn(up, f, root);
    WayPush(up, f);
  }

  /** Coming back from the last child. */
  lemma {:induction false} WayUp(way: seq<Frame>, r: Node, root: Node)
    requires Wf(root) && way != [] && Way(way, r, root, false)
    requires !way[|way| - 1].inLeft || r.body.right == null
    ensures var up := way[..|way| - 1];
            Way(up, Top(up), root, false) && Rest(up) == Rest(way) && Work(up) < Work(way)
  {
  }

  /** What has been written of `text` so far: everything but its first part `todo`. */
  ghost predicate Written(now: seq<char>, before: seq<char>, base: nat, text: string, todo: string) {
    && |now| == |before| && base + |text| <= |now| && todo <= text
    && now[..base + |todo|] == before[..base + |todo|]
    && now[base + |todo|..base + |text|] == text[|todo|..]
    && now[base + |text|..] == before[base + |text|..]
  }

  lemma {:induction false} WrittenMore(now: seq<char>, was: seq<char>, before: seq<char>, base: nat, text: string,
                                       todo: string, s: string)
    requires Written(was, before, base, text, todo + s) && Wrote(was, now, base + |todo|, s)
    ensures Written(now, before, base, text, todo)
  {
    var p, q, e := base + |todo|, base + |todo| + |s|, base + |text|;
    assert now[..p] == was[..p] && now[p..q] == s && now[q..] == was[q..];
    assert was[..q][..p] == was[..p] && before[..q][..p] == before[..p];
    assert text[|todo|..] == s + text[|todo| + |s|..] by {
      assert (todo + s)[|todo|..] == s;
      assert text[..|todo| + |s|] == todo + s;
    }
    assert now[q..][..e - q] == now[q..e] && was[q..][..e - q] == was[q..e];
    assert now[p..e] == now[p..q] + now[q..e];
    assert now[q..][e - q..] == now[e..] && was[q..][e - q..] == was[e..];
    assert todo <= todo + s <= text;
  }

  /** One piece is copied in front of what has been written. */
  method WritePiece(buffer: array<char>, off: nat, s: string, ghost before: seq<char>, ghost base: nat,
                    ghost text: string, ghost todo: string)
    requires off == base + |todo| && Written(buffer[..], before, base, text, todo + s)
    modifies buffer
    ensures Written(buffer[..], before, base, text, todo)
  {
    ghost var was := buffer[..];
    CopyIn(buffer, off, s);
    WrittenMore(buffer[..], was, before, base, text, todo, s);
  }

  /** What is still to be written, and the steps still to be taken. */
  ghost function Todo(way: seq<Frame>, r: Node?, root: Node, down: bool): string
    requires Wf(root) && Way(way, r, root, down)
  {
    Rest(way) + if down then Text(r) else ""
  }

  ghost function Left(way: seq<Frame>, r: Node?, root: Node, down: bool): nat
    requires Wf(root) && Way(way, r, root, down)
  {
    Work(way) + if down then Cost(r) else 0
  }

  /** Goes on to a child, which gets a link back. */
  method GoDown(r: Node, child: Node, inLeft: bool, ghost up: seq<Frame>)
    requires forall i :: 0 <= i < |up| ==> up[i].node.tempLeft == up[i].inLeft && up[i].node.temp == Above(up, i)
    requires r.temp == Top(up) && child != r
    requires forall i :: 0 <= i < |up| ==> up[i].node != r && up[i].node != child
    modifies r`tempLeft, child`temp
    ensures Linked(up + [Frame(r, inLeft)], child, true)
  {
    r.tempLeft := inLeft;
    child.temp := r;
    ghost var way := up + [Frame(r, inLeft)];
    forall i | 0 <= i < |way| ensures way[i].node.tempLeft == way[i].inLeft && way[i].node.temp == Above(way, i) {
      if i < |up| {
        assert way[i] == up[i] && Above(way, i) == Above(up, i);
      }
    }
  }

  /** The way never passes a node twice. */
  lemma {:induction false} WayApart(way: seq<Frame>, r: Node, root: Node, child: Node)
    requires Wf(root) && Way(way, r, root, true) && child.height < r.height
    ensures child != r && forall i :: 0 <= i < |way| ==> way[i].node != r && way[i].node != child
  {
  }

  /** A concatenation met on the way down. */
  method VisitConcat(r: Node, ghost way: seq<Frame>, ghost root: Node)
    returns (next: Node?, down: bool, ghost way': seq<Frame>)
    requires Wf(root) && Way(way, r, root, true) && Linked(way, r, true) && r.body.Concat?
    modifies Nodes(root)
    ensures Way(way', next, root, down) && Linked(way', next, down)
    ensures Todo(way', next, root, down) == Todo(way, r, root, true)
    ensures Left(way', next, root, down) < Left(way, r, root, true)
  {
    hide Rest, Work, Nodes, Text, Cost, Way;
    InNodes(way, r, root, true);
    var Concat(left, right) := r.body;
    if left != null {
      WayDown(way, r, true, root);
      WayApart(way, r, root, left);
      GoDown(r, left, true, way);
      next, down, way' := left, true, way + [Frame(r, true)];
    } else if right != null {
      WayDown(way, r, false, root);
      WayApart(way, r, root, right);
      GoDown(r, right, false, way);
      next, down, way' := right, true, way + [Frame(r, false)];
    } else {
      WayEmpty(way, r, root);
      next, down, way' := r.temp, false, way;
    }
  }

  /** A concatenation of nothing. */
  lemma {:induction false} WayEmpty(way: seq<Frame>, r: Node, root: Node)
    requires Wf(root) && Way(way, r, root, true) && r.body == Concat(null, null)
    ensures Way(way, Top(way), root, false)
    ensures Todo(way, Top(way), root, false) == Todo(way, r, root, true)
    ensures Left(way, Top(way), root, false) < Left(way, r, root, true)
  {
    assert Text(r) == "";
  }

  lemma {:induction false} InNodes(way: seq<Frame>, r: Node, root: Node, down: bool)
    requires Wf(root) && Way(way, r, root, down)
    ensures r in Nodes(root) && Wf(r)
    ensures r.body.Concat? && r.body.left != null ==> r.body.left in Nodes(root)
    ensures r.body.Concat? && r.body.right != null ==> r.body.right in Nodes(root)
  {
    NodesClosed(root, r);
    if r.body.Concat? {
      if r.body.left != null {
        NodesClosed(r, r.body.left);
      }
      if r.body.right != null {
        NodesClosed(r, r.body.right);
      }
    }
  }

  /** A concatenation met on the way up. */
  method VisitBack(r: Node, ghost way: seq<Frame>, ghost root: Node)
    returns (next: Node?, down: bool, ghost way': seq<Frame>)
    requires Wf(root) && Way(way, r, root, false) && Linked(way, r, false)
    modifies Nodes(root)
    ensures Way(way', next, root, down) && Linked(way', next, down)
    ensures Todo(way', next, root, down) == Todo(way, r, root, false)
    ensures Left(way', next, root, down) < Left(way, r, root, false)
  {
    hide Rest, Work, Nodes, Text, Cost, Way;
    InNodes(way, r, root, false);
    WayBack(way, r, root);
    ghost var up := way[..|way| - 1];
    var right := r.body.right;
    if r.tempLeft && right != null {
      WayTurn(way, r, root);
      LinkedUp(way, r);
      GoDown(r, right, false, up);
      next, down, way' := right, true, up + [Frame(r, false)];
    } else {
      WayUp(way, r, root);
      LinkedUp(way, r);
      next, down, way' := r.temp, false, up;
    }
  }

  lemma {:induction false} WayBack(way: seq<Frame>, r: Node, root: Node)
    requires Wf(root) && Way(way, r, root, false)
    ensures way != [] && way[|way| - 1].node == r && r.body.Concat?
    ensures var right := r.body.right;
            right != null ==> right != r && forall i :: 0 <= i < |way| - 1 ==> way[i].node != r && way[i].node != right
  {
    assert Wf(r);
  }

  lemma {:induction false} LinkedUp(way: seq<Frame>, r: Node)
    requires way != [] && way[|way| - 1].node == r && Linked(way, r, false)
    ensures var up := way[..|way| - 1];
            && r.temp == Top(up) && r.tempLeft == way[|way| - 1].inLeft
            && (forall i :: 0 <= i < |up| ==> up[i].node.tempLeft == up[i].inLeft && up[i].node.temp == Above(up, i))
            && Linked(up, Top(up), false)
  {
    var up := way[..|way| - 1];
    forall i | 0 <= i < |up| ensures up[i].node.tempLeft == up[i].inLeft && up[i].node.temp == Above(up, i) {
      assert way[i] == up[i] && Above(way, i) == Above(up, i);
    }
  }

  lemma {:induction false} WayEnds(way: seq<Frame>, root: Node, down: bool)
    requires Wf(root) && Way(way, null, root, down)
    ensures Todo(way, null, root, down) == "" && !down
  {
  }

  lemma {:induction false} WayStarts(root: Node)
    requires Wf(root)
    ensures Way([], root, root, true) && Todo([], root, root, true) == Text(root) && root in Nodes(root)
  {
    NodesClosed(root, root);
  }

  lemma {:induction false} LeafStep(way: seq<Frame>, r: Node, root: Node)
    requires Wf(root) && Way(way, r, root, true) && r.body.Str?
    ensures Way(way, Top(way), root, false)
    ensures Todo(way, r, root, true) == Todo(way, Top(way), root, false) + r.body.s
    ensures Left(way, Top(way), root, false) < Left(way, r, root, true)
  {
  }

  /**
   Writes the text of a rope so that it ends at `end`. It needs no stack, changes only the links in the
   nodes of the rope, and ends, also when parts of the rope are shared.
   */
  method Walk(buffer: array<char>, root: Node?, end: nat) returns (off: nat)
    requires WfOrNull(root) && |Text(root)| <= end <= buffer.Length
    modifies buffer, Nodes(root)
    ensures off == end - |Text(root)|
    ensures buffer[..off] == old(buffer[..off]) && buffer[off..end] == Text(root) && buffer[end..] == old(buffer[end..])
  {
    hide Todo, Left, Way, Wf, Nodes, Text, Written, Rest, Work, Top;
    off := end;
    var r := root;
    var goingDown := true;
    if r == null {
      TextOfNull();
      return;
    }
    WayStarts(root);
    r.temp := null;
    ghost var text, base, before := Text(root), end - |Text(root)|, buffer[..];
    ghost var way: seq<Frame> := [];
    LinkedStarts(root);
    WrittenNothing(before, base, text);
    while r != null
      invariant Way(way, r, root, goingDown) && Linked(way, r, goingDown)
      invariant off == base + |Todo(way, r, root, goingDown)|
      invariant Written(buffer[..], before, base, text, Todo(way, r, root, goingDown))
      decreases Left(way, r, root, goingDown)
    {
      if goingDown {
        match r.body
        case Concat(_, _) =>
          r, goingDown, way := VisitConcat(r, way, root);
        case Str(s) =>
          LeafStep(way, r, root);
          off := off - |s|;
          WritePiece(buffer, off, s, before, base, text, Todo(way, Top(way), root, false));
          LinkedLeaf(way, r);
          goingDown := false;
          r := r.temp;
      } else {
        r, goingDown, way := VisitBack(r, way, root);
      }
    }
    WayEnds(way, root, goingDown);
    WrittenAll(buffer[..], before, base, text);
  }

  lemma LinkedStarts(root: Node)
    requires root.temp == null
    ensures Linked([], root, true)
  {
  }

  lemma LinkedLeaf(way: seq<Frame>, r: Node)
    requires Linked(way, r, true)
    ensures r.temp == Top(way) && Linked(way, Top(way), false)
  {
  }

  lemma WrittenNothing(before: seq<char>, base: nat, text: string)
    requires base + |text| <= |before|
    ensures Written(before, before, base, text, text)
  {
  }

  lemma WrittenAll(now: seq<char>, before: seq<char>, base: nat, text: string)
    requires Written(now, before, base, text, "")
    ensures base + |text| <= |now| == |before| && now[..base] == before[..base]
    ensures now[base..base + |text|] == text && now[base + |text|..] == before[base + |text|..]
  {
  }

  lemma TextOfNull()
    ensures Text(null) == ""
  {
  }

  // ----- one character -----

  /**
   Looks for character `index`, going through the pieces from the last one back; `soFar` is the length
   of the text in front of the pieces already seen. Once the character is found nothing changes any more,
   although a piece does not look at `stop`: it is only met before.
   */
  method Find(ret: char, index: nat, n: Node?, soFar: nat, stop: bool) returns (ret': char, soFar': nat, stop': bool)
    requires WfOrNull(n) && (stop ==> n == null || n.body.Concat?)
    requires !stop ==> index < soFar && |Text(n)| <= soFar
    ensures stop ==> ret' == ret && soFar' == soFar && stop'
    ensures !stop && index < soFar - |Text(n)| ==> ret' == ret && soFar' == soFar - |Text(n)| && !stop'
    ensures !stop && soFar - |Text(n)| <= index ==> ret' == Text(n)[index - (soFar - |Text(n)|)] && stop'
    decreases if n == null then 0 else n.height + 1
  {
    ret', soFar', stop' := ret, soFar, stop;
    if n != null {
      match n.body
      case Concat(left, right) =>
        if !stop {
          if left != null {
            ret', soFar', stop' := Find(ret', index, left, soFar', stop');
          }
          if right != null {
            ret', soFar', stop' := Find(ret', index, right, soFar', stop');
          }
        }
      case Str(s) =>
        soFar' := soFar' - |s|;
        if index >= soFar' {
          ret' := s[index - soFar'];
          stop' := true;
        }
    }
  }

  // ----- ropes -----

  class Rope {
    var root: Node?
    var size: nat

    ghost predicate Valid()
      reads this
    {
      root != null && Wf(root) && root.body.Concat? && size == |Text(root)|
    }

    ghost function Contents(): string
      requires Valid()
      reads this
    {
      Text(root)
    }

    constructor (s: string)
      ensures Valid() && Contents() == s
    {
      var piece := new Node(Str(s), 0);
      root := new Node(Concat(piece, null), 1);
      size := |s|;
      new;
      assert Text(root) == Text(null) + Text(piece);
    }

    /** Copying a rope shares its nodes. */
    constructor Copy(r: Rope)
      requires r.Valid()
      ensures Valid() && Contents() == r.Contents()
    {
      root := r.root;
      size := r.size;
    }

    /** The new piece becomes the left child of a new root over the old one. */
    method AppendString(s: string)
      requires Valid()
      modifies this
      ensures Valid() && Contents() == old(Contents()) + s
    {
      var piece := new Node(Str(s), 0);
      root := new Node(Concat(piece, root), root.height + 1);
      size := size + |s|;
      assert Text(piece) == s;
    }

    /** Appending a rope shares its nodes; it may be this rope itself. */
    method Append(r: Rope)
      requires Valid() && r.Valid()
      modifies this
      ensures Valid() && Contents() == old(Contents()) + old(r.Contents())
      ensures r != this ==> r.Valid() && r.Contents() == old(r.Contents())
    {
      root := new Node(Concat(r.root, root), root.height + r.root.height + 1);
      size := size + r.size;
    }

    /** `operator+`: a copy of the left side, appended to. */
    static method Plus(lhs: Rope, rhs: Rope) returns (sum: Rope)
      requires lhs.Valid() && rhs.Valid()
      ensures fresh(sum) && sum.Valid() && sum.Contents() == lhs.Contents() + rhs.Contents()
      ensures lhs.Valid() && rhs.Valid() && lhs.Contents() == old(lhs.Contents())
              && rhs.Contents() == old(rhs.Contents())
    {
      sum := new Rope.Copy(lhs);
      sum.Append(rhs);
    }

    method At(index: nat) returns (c: char)
      requires Valid() && index < size
      ensures c == Contents()[index]
    {
      var soFar, stop;
      c, soFar, stop := Find('\0', index, root, size, false);
    }

    method Length() returns (n: nat)
      requires Valid()
      ensures n == |Contents()|
    {
      n := size;
    }

    /** The text with a NUL after it. */
    method CStr() returns (text: array<char>)
      requires Valid()
      modifies Nodes(root)
      ensures Valid() && Contents() == old(Contents())
      ensures fresh(text) && text[..] == Contents() + ['\0']
    {
      text := new char[size + 1];
      if root != null {
        var off := Walk(text, root, size);
        assert text[..size] == text[0..size];
      }
      text[size] := '\0';
    }
  }
}
