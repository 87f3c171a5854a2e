/**
 The shared dictionary of stream-lua-nginx-module/src/ngx_stream_lua_shdict.c: the same nodes in a search
 tree, ordered by hash and then by key bytes, and in a queue, most recently touched first.
 */
module SharedDict {
  import opened Basics
  import opened TimedLru

  // ---------------------------------------------------------------- the order of the tree

  /** ngx_memn2cmp: bytes first, then length. */
  function MemN2Cmp(a: Key, b: Key): int
  {
    if a == [] && b == [] then 0
    else if a == [] then -1
    else if b == [] then 1
    else if a[0] != b[0] then a[0] as int - b[0] as int
    else MemN2Cmp(a[1..], b[1..])
  }

  lemma {:induction false} CmpZero(a: Key, b: Key)
    ensures MemN2Cmp(a, b) == 0 <==> a == b
  {
    if a != [] && b != [] {
      CmpZero(a[1..], b[1..]);
      assert a == [a[0]] + a[1..] && b == [b[0]] + b[1..];
    }
  }

  lemma {:induction false} CmpAntisym(a: Key, b: Key)
    ensures MemN2Cmp(a, b) == -MemN2Cmp(b, a)
  {
    if a != [] && b != [] {
      CmpAntisym(a[1..], b[1..]);
    }
  }

  lemma {:induction false} CmpTrans(a: Key, b: Key, c: Key)
    requires MemN2Cmp(a, b) < 0 && MemN2Cmp(b, c) < 0
    ensures MemN2Cmp(a, c) < 0
  {
    if a != [] && b != [] && c != [] && a[0] == b[0] == c[0] {
      CmpTrans(a[1..], b[1..], c[1..]);
    }
  }

  class Node {
    const key: Key
    const hash: nat
    var value: Value
    var expires: millis
    var flags: int

    constructor (key: Key, hash: nat, e: Entry)
      ensures this.key == key && this.hash == hash
      ensures value == e.value && expires == e.expires && flags == e.flags
    {
      this.key, this.hash := key, hash;
      value, expires, flags := e.value, e.expires, e.flags;
    }

    function View(): Entry
      reads this
    {
      Entry(key, value, expires, flags)
    }
  }

  predicate Less(m: Node, n: Node)
  {
    m.hash < n.hash || (m.hash == n.hash && MemN2Cmp(m.key, n.key) < 0)
  }

  lemma LessTrans(a: Node, b: Node, c: Node)
    requires Less(a, b) && Less(b, c)
    ensures Less(a, c)
  {
    if a.hash == b.hash == c.hash {
      CmpTrans(a.key, b.key, c.key);
    }
  }

  lemma LessTotal(a: Node, b: Node)
    ensures Less(a, b) ==> !Less(b, a) && a != b
    ensures !Less(a, b) && a.key != b.key ==> Less(b, a)
  {
    CmpAntisym(a.key, b.key);
    CmpZero(a.key, b.key);
  }

  datatype Tree = Leaf | Branch(left: Tree, node: Node, right: Tree)

  function Inorder(t: Tree): seq<Node>
  {
    match t
    case Leaf => []
    case Branch(l, n, r) => Inorder(l) + [n] + Inorder(r)
  }

  ghost predicate Sorted(ns: seq<Node>)
  {
    forall i, j :: 0 <= i < j < |ns| ==> Less(ns[i], ns[j])
  }

  ghost predicate NoDup<T>(s: seq<T>)
  {
    forall i, j :: 0 <= i < j < |s| ==> s[i] != s[j]
  }

  lemma SortedSplit(l: seq<Node>, n: Node, r: seq<Node>)
    requires Sorted(l + [n] + r)
    ensures Sorted(l) && Sorted(r)
    ensures forall x :: x in l ==> Less(x, n)
    ensures forall x :: x in r ==> Less(n, x)
  {
    var s := l + [n] + r;
    assert s[|l|] == n;
    assert forall i :: 0 <= i < |l| ==> s[i] == l[i];
    assert forall i :: 0 <= i < |r| ==> s[|l| + 1 + i] == r[i];
  }

  function IndexOf<T(==)>(s: seq<T>, x: T): (i: nat)
    requires x in s
    ensures i < |s| && s[i] == x
  {
    if s[0] == x then 0 else 1 + IndexOf(s[1..], x)
  }

  /**
   The outcome of nginx's red-black insertion or deletion: some tree whose in-order sequence is the one wanted.
   Nothing else about its shape is known to the callers.
   */
  method Rebalanced(ns: seq<Node>) returns (t: Tree)
    ensures Inorder(t) == ns
  {
    t := Leaf;
    var i := |ns|;
    while i > 0
      invariant 0 <= i <= |ns|
      invariant Inorder(t) == ns[i..]
    {
      i := i - 1;
      t := Branch(Leaf, ns[i], t);
    }
  }

  // ---------------------------------------------------------------- the queue as a list of entries

  ghost function Views(q: seq<Node>): (es: seq<Entry>)
    reads q
    ensures |es| == |q| && forall i :: 0 <= i < |q| ==> es[i] == q[i].View()
  {
    if q == [] then [] else [q[0].View()] + Views(q[1..])
  }

  lemma ViewsConcat(a: seq<Node>, b: seq<Node>)
    ensures Views(a + b) == Views(a) + Views(b)
  {
    hide Views;
  }

  lemma ViewsTake(q: seq<Node>, n: nat)
    requires n <= |q|
    ensures Views(q[..n]) == Views(q)[..n]
  {
    hide Views;
  }

  lemma ViewsDrop(q: seq<Node>, n: nat)
    requires n <= |q|
    ensures Views(q[n..]) == Views(q)[n..]
  {
    hide Views;
  }

  lemma ViewsWithout(q: seq<Node>, i: nat)
    requires i < |q|
    ensures Views(Without(q, i)) == Without(Views(q), i)
  {
    hide Views;
    ViewsConcat(q[..i], q[i + 1..]);
    ViewsTake(q, i);
    ViewsDrop(q, i + 1);
  }

  lemma ViewsTouch(q: seq<Node>, i: nat)
    requires i < |q|
    ensures Views(Touch(q, i)) == Touch(Views(q), i)
  {
    hide Views, Without;
    ViewsWithout(q, i);
    ViewsConcat([q[i]], Without(q, i));
    assert Views([q[i]]) == [q[i].View()];
  }

  lemma FindView(q: seq<Node>, k: Key, i: nat)
    requires i < |q| && q[i].key == k
    requires forall i, j :: 0 <= i < j < |q| ==> q[i].key != q[j].key
    ensures Find(Views(q), k) == i
  {
    var f := Find(Views(q), k);
    assert f <= i;
    assert f < |q| && Views(q)[f].key == k;
  }

  lemma ViewsFirst(q: seq<Node>, e: Entry, es: seq<Entry>)
    requires q != [] && |es| == |q| && q[0].View() == e
    requires forall i :: 1 <= i < |q| ==> q[i].View() == es[i]
    ensures Views(q) == [e] + es[1..]
  {
  }

  /** A lookup that finds its key, seen in the queue. */
  lemma LookupView(q: seq<Node>, k: Key, i: nat, now: millis)
    requires i < |q| && q[i].key == k
    requires forall i, j :: 0 <= i < j < |q| ==> q[i].key != q[j].key
    ensures Lookup(Views(q), k, now)
         == (if q[i].expires != 0 && TimeLeft(q[i].expires, now) < 0 then Done else Ok, Views(Touch(q, i)))
  {
    hide Find, Touch;
    FindView(q, k, i);
    ViewsTouch(q, i);
  }

  lemma LookupNone(q: seq<Node>, k: Key, now: millis)
    requires forall n :: n in q ==> n.key != k
    ensures Lookup(Views(q), k, now) == (Declined, Views(q))
  {
    hide Find;
    NotThere(q, k);
  }

  /** The same nodes in the tree and in the queue, the tree in order, each node under the hash of its key. */
  ghost predicate SameNodes(ns: seq<Node>, q: seq<Node>, hash: Key -> nat)
  {
    && Sorted(ns)
    && NoDup(q)
    && (forall n :: n in q ==> n in ns)
    && (forall n :: n in ns ==> n in q)
    && (forall n :: n in q ==> n.hash == hash(n.key))
  }

  /** Taking out the first one. */
  lemma FirstOut<T>(s: seq<T>)
    requires s != []
    ensures IndexOf(s, s[0]) == 0 && Without(s, 0) == s[1..]
  {
  }

  lemma FirstKey(q: seq<Node>)
    requires q != [] && forall i, j :: 0 <= i < j < |q| ==> q[i].key != q[j].key
    ensures forall n :: n in q[1..] ==> n.key != q[0].key
  {
    assert forall i :: 0 <= i < |q[1..]| ==> q[1..][i] == q[i + 1];
  }

  /** Distinct nodes have distinct keys, however many keys share one hash. */
  lemma KeysDistinct(ns: seq<Node>, q: seq<Node>, hash: Key -> nat)
    requires SameNodes(ns, q, hash)
    ensures forall i, j :: 0 <= i < j < |q| ==> q[i].key != q[j].key
  {
    forall i, j | 0 <= i < j < |q|
      ensures q[i].key != q[j].key
    {
      var a, b := q[i], q[j];
      assert a in q && b in q;
      var x, y := IndexOf(ns, a), IndexOf(ns, b);
      assert if x < y then Less(ns[x], ns[y]) else Less(ns[y], ns[x]);
      CmpZero(a.key, b.key);
      CmpZero(b.key, a.key);
    }
  }

  lemma SortedNoDup(ns: seq<Node>)
    requires Sorted(ns)
    ensures NoDup(ns)
  {
    forall i, j | 0 <= i < j < |ns|
      ensures ns[i] != ns[j]
    {
      LessTotal(ns[i], ns[j]);
    }
  }

  /** Taking one node out of both keeps them the same. */
  lemma SameWithout(ns: seq<Node>, q: seq<Node>, hash: Key -> nat, i: nat, j: nat)
    requires SameNodes(ns, q, hash) && i < |ns| && j < |q| && ns[i] == q[j]
    ensures SameNodes(Without(ns, i), Without(q, j), hash)
  {
    SortedNoDup(ns);
    WithoutMembers(ns, i);
    WithoutMembers(q, j);
    var ns' := Without(ns, i);
    assert forall x :: 0 <= x < |ns'| ==> ns'[x] == if x < i then ns[x] else ns[x + 1];
  }

  lemma WithoutMembers<T>(s: seq<T>, i: nat)
    requires NoDup(s) && i < |s|
    ensures NoDup(Without(s, i))
    ensures forall x :: x in Without(s, i) <==> x in s && x != s[i]
  {
    var r := Without(s, i);
    assert forall j :: 0 <= j < |r| ==> r[j] == if j < i then s[j] else s[j + 1];
    forall x | x in s && x != s[i]
      ensures x in r
    {
      var j :| 0 <= j < |s| && s[j] == x;
      assert r[if j < i then j else j - 1] == x;
    }
  }

  lemma SameTouched(ns: seq<Node>, q: seq<Node>, hash: Key -> nat, j: nat)
    requires SameNodes(ns, q, hash) && j < |q|
    ensures SameNodes(ns, Touch(q, j), hash)
  {
    WithoutMembers(q, j);
    var t := Touch(q, j);
    assert forall x :: x in t <==> x == q[j] || x in t[1..];
    assert forall i :: 1 <= i < |t| ==> t[i] == t[1..][i - 1];
  }

  ghost function InsertedAt(ns: seq<Node>, i: nat, n: Node): seq<Node>
    requires i <= |ns|
  {
    ns[..i] + [n] + ns[i..]
  }

  lemma SortedInserted(ns: seq<Node>, i: nat, n: Node)
    requires Sorted(ns) && i <= |ns|
    requires forall j :: 0 <= j < i ==> Less(ns[j], n)
    requires forall j :: i <= j < |ns| ==> Less(n, ns[j])
    ensures Sorted(InsertedAt(ns, i, n))
  {
    var t := InsertedAt(ns, i, n);
    assert forall x :: 0 <= x < |t| ==> t[x] == if x < i then ns[x] else if x == i then n else ns[x - 1];
    hide Less;
  }

  lemma InsertedMembers(ns: seq<Node>, i: nat, n: Node)
    requires i <= |ns|
    ensures forall x :: x in InsertedAt(ns, i, n) <==> x == n || x in ns
  {
    assert ns == ns[..i] + ns[i..];
  }

  lemma SameInserted(ns: seq<Node>, q: seq<Node>, hash: Key -> nat, i: nat, n: Node)
    requires SameNodes(ns, q, hash) && i <= |ns| && n !in q && n.hash == hash(n.key)
    requires forall j :: 0 <= j < i ==> Less(ns[j], n)
    requires forall j :: i <= j < |ns| ==> Less(n, ns[j])
    ensures SameNodes(InsertedAt(ns, i, n), [n] + q, hash)
  {
    SortedInserted(ns, i, n);
    InsertedMembers(ns, i, n);
    hide InsertedAt, Sorted, Less;
    assert NoDup([n] + q);
  }

  class Dict {
    const hash: Key -> nat
    var tree: Tree
    var queue: seq<Node>

    constructor (hash: Key -> nat)
      ensures this.hash == hash && Valid() && queue == []
    {
      this.hash := hash;
      tree, queue := Leaf, [];
    }

    ghost predicate Valid()
      reads this
    {
      SameNodes(Inorder(tree), queue, hash)
    }

    ghost function Entries(): seq<Entry>
      reads this, queue
    {
      Views(queue)
    }

    /** The walk of lookup: the node with this key, if the tree holds one. */
    method Search(k: Key) returns (sd: Node?)
      requires Valid()
      ensures sd != null ==> sd in queue && sd.key == k
      ensures sd == null ==> forall n :: n in queue ==> n.key != k
    {
      var h := hash(k);
      var t := tree;
      while t.Branch?
        invariant Sorted(Inorder(t))
        invariant forall n :: n in Inorder(t) ==> n in queue
        invariant forall n :: n in queue && n.key == k ==> n in Inorder(t)
        decreases t
      {
        SortedSplit(Inorder(t.left), t.node, Inorder(t.right));
        if h < t.node.hash {
          t := t.left;
        } else if h > t.node.hash {
          t := t.right;
        } else {
          var rc := MemN2Cmp(k, t.node.key);
          CmpZero(k, t.node.key);
          CmpAntisym(k, t.node.key);
          if rc == 0 {
            return t.node;
          }
          t := if rc < 0 then t.left else t.right;
        }
      }
      sd := null;
    }

    /** lookup */
    method LookupNode(k: Key, now: millis) returns (rc: Rc, sd: Node?)
      requires Valid()
      modifies this`queue
      ensures Valid()
      ensures (rc, Entries()) == Lookup(old(Entries()), k, now)
      ensures rc.Declined? <==> sd == null
      ensures sd != null ==> sd.key == k && |queue| == |old(queue)| && queue[0] == sd && sd in old(queue)
      ensures sd == null ==> forall n :: n in queue ==> n.key != k
    {
      hide Views, Inorder, Find, Lookup, SameNodes, Without;
      KeysDistinct(Inorder(tree), queue, hash);
      sd := Search(k);
      if sd == null {
        LookupNone(queue, k, now);
        return Declined, null;
      }
      var i := IndexOf(queue, sd);
      LookupView(queue, k, i, now);
      SameTouched(Inorder(tree), queue, hash, i);
      queue := Touch(queue, i);
      rc := if sd.expires != 0 && TimeLeft(sd.expires, now) < 0 then Done else Ok;
    }

    /** Take a node out of the queue and out of the tree. */
    method Drop(sd: Node)
      requires Valid() && sd in queue
      modifies this`queue, this`tree
      ensures Valid()
      ensures queue == Without(old(queue), IndexOf(old(queue), sd))
      ensures Entries() == Without(old(Entries()), IndexOf(old(queue), sd))
    {
      hide Views, Inorder;
      var ns := Inorder(tree);
      var i, j := IndexOf(ns, sd), IndexOf(queue, sd);
      SameWithout(ns, queue, hash, i, j);
      ViewsWithout(queue, j);
      queue := Without(queue, j);
      tree := Rebalanced(Without(ns, i));
    }

    /** expire: with n == 1 one or two expired entries, with n == 0 the oldest by force and one or two expired ones. */
    method Expire(n0: nat, now: millis) returns (freed: nat)
      requires Valid() && n0 <= 1
      modifies this`queue, this`tree
      ensures Valid()
      ensures Entries() == if n0 == 0 then EvictOne(old(Entries()), now) else DropDead(old(Entries()), now, 2)
      ensures freed == |old(queue)| - |queue|
      ensures queue <= old(queue) && forall n :: n in queue ==> n in old(queue)
    {
      hide Views, Inorder, SameNodes, Remaining, EvictOne, DropDead;
      RemainingStart(Views(queue), now);
      var n := n0;
      freed := 0;
      while n < 3
        invariant n0 <= n <= 3
        invariant Valid() && queue <= old(queue) && freed == |old(queue)| - |queue|
        invariant Remaining(Views(queue), now, n) == Remaining(old(Views(queue)), now, n0)
      {
        if queue == [] {
          break;
        }
        var sd := queue[|queue| - 1];
        if n != 0 {
          if sd.expires == 0 {
            break;
          }
          if TimeLeft(sd.expires, now) > 0 {
            break;
          }
        }
        RemainingDrop(Views(queue), now, n);
        n := n + 1;
        DropLast(sd);
        freed := freed + 1;
      }
      RemainingStop(Views(queue), now, n);
    }

    method DropLast(sd: Node)
      requires Valid() && queue != [] && sd == queue[|queue| - 1]
      modifies this`queue, this`tree
      ensures Valid()
      ensures queue == old(queue)[..|old(queue)| - 1]
      ensures Views(queue) == Views(old(queue))[..|old(queue)| - 1]
    {
      hide Views, Inorder;
      var i := |queue| - 1;
      assert IndexOf(queue, sd) == i;
      ViewsTake(queue, i);
      assert Without(queue, i) == queue[..i];
      Drop(sd);
    }

    /** get and get_stale */
    method GetHelper(k: Key, stale: bool, now: millis) returns (r: GetResult)
      requires Valid()
      modifies this`queue, this`tree
      ensures Valid()
      ensures (r, Entries()) == Get(old(Entries()), k, stale, now)
    {
      hide Views, SameNodes, Lookup, DropDead;
      if |k| == 0 || |k| > 65535 {
        return BadKey;
      }
      if !stale {
        var _ := Expire(1, now);
      }
      var rc, sd := LookupNode(k, now);
      if rc.Declined? || (rc.Done? && !stale) {
        return Miss;
      }
      return Hit(sd.value, sd.flags, rc.Done?);
    }

    /** Which way rbtree_insert_value turns: by hash, then by key. */
    method GoesLeft(node: Node, temp: Node) returns (left: bool)
      ensures left == Less(node, temp)
    {
      if node.hash != temp.hash {
        return node.hash < temp.hash;
      }
      return MemN2Cmp(node.key, temp.key) < 0;
    }

    /** The descent of rbtree_insert_value: where in the order a new node belongs. */
    method InsertPosition(node: Node) returns (i: nat)
      requires Valid() && forall n :: n in queue ==> n.key != node.key
      ensures i <= |Inorder(tree)|
      ensures forall j :: 0 <= j < i ==> Less(Inorder(tree)[j], node)
      ensures forall j :: i <= j < |Inorder(tree)| ==> Less(node, Inorder(tree)[j])
    {
      hide Less, MemN2Cmp, Sorted;
      var temp := tree;
      i := 0;
      ghost var ns, hi := Inorder(tree), |Inorder(tree)|;
      assert ns[0..hi] == ns;
      while temp.Branch?
        invariant i <= hi <= |ns| && Inorder(temp) == ns[i..hi]
        invariant forall j :: 0 <= j < i ==> Less(ns[j], node)
        invariant forall j :: hi <= j < |ns| ==> Less(node, ns[j])
        decreases temp
      {
        ghost var m := i + |Inorder(temp.left)|;
        Middle(ns, i, hi, Inorder(temp.left), temp.node, Inorder(temp.right));
        assert ns[m] == temp.node && temp.node in ns;
        LessTotal(node, temp.node);
        var left := GoesLeft(node, temp.node);
        if left {
          AllAbove(ns, m, node);
          temp, hi := temp.left, m;
        } else {
          AllBelow(ns, m, node);
          i := i + |Inorder(temp.left)| + 1;
          temp := temp.right;
        }
      }
    }

    /** A new node, into the tree and to the head of the queue. */
    method InsertNode(k: Key, e: Entry)
      requires Valid() && e.key == k && forall n :: n in queue ==> n.key != k
      modifies this`queue, this`tree
      ensures Valid() && Entries() == [e] + old(Entries())
    {
      hide Views, Inorder;
      var node := new Node(k, hash(k), e);
      assert node !in queue;
      var i := InsertPosition(node);
      var ns := Inorder(tree);
      SameInserted(ns, queue, hash, i, node);
      ViewsConcat([node], queue);
      assert Views([node]) == [node.View()] == [e];
      tree := Rebalanced(ns[..i] + [node] + ns[i..]);
      queue := [node] + queue;
    }

    /** Allocation: at once, or for a store that is not safe after up to 30 rounds of eviction. */
    method MakeRoom(safe: bool, now: millis) returns (mem: Memory)
      requires Valid()
      modifies this`queue, this`tree
      ensures Valid() && queue <= old(queue)
      ensures Entries() == Evict(old(Entries()), now, mem.evictions)
      ensures MemoryOk(old(Entries()), now, safe, mem)
    {
      hide Views, SameNodes, EvictOne;
      ghost var es := Entries();
      var granted: bool := *;
      if granted || safe {
        return Memory(0, granted);
      }
      var i := 0;
      while i < 30
        invariant 0 <= i <= 30
        invariant Valid() && queue <= old(queue) && !granted
        invariant Views(queue) == Evict(es, now, i)
        invariant i > 0 ==> Evict(es, now, i - 1) != []
      {
        var freed := Expire(0, now);
        if freed == 0 {
          break;
        }
        i := i + 1;
        granted := *;
        if granted {
          break;
        }
      }
      mem := Memory(i, granted);
    }

    /** set, safe_set, add, safe_add, replace and delete */
    method SetHelper(op: StoreOp, now: millis) returns (r: StoreResult, mem: Memory)
      requires Valid()
      modifies this, queue
      ensures Valid()
      ensures (r, Entries()) == Store(old(Entries()), op, now, mem)
      ensures Inserts(old(Entries()), op, now) ==> MemoryOk(BeforeInsert(old(Entries()), op, now), now, op.safe, mem)
    {
      hide Views, SameNodes, Lookup, DropDead, Evict, MemoryOk;
      mem := Memory(0, true);
      if |op.key| == 0 || |op.key| > 65535 {
        return BadStoreKey, mem;
      }
      if op.value.None? && (op.add || op.replace) {
        return NilNotAllowed, mem;
      }
      var _ := Expire(1, now);
      var rc, sd := LookupNode(op.key, now);
      if op.replace {
        if !rc.Ok? {
          return NotFound, mem;
        }
      } else if op.add && rc.Ok? {
        return Exists, mem;
      }
      if sd != null {
        if op.value.Some? && op.value.value.Size() == sd.value.Size() {
          if TooLong(op) {
            return Undefined, mem;
          }
          Overwrite(sd, NewEntry(op, now));
          return Stored(false), mem;
        }
        DropFirst(sd);
      }
      if op.value.None? {
        return Stored(false), mem;
      }
      mem := MakeRoom(op.safe, now);
      if !mem.granted {
        return NoMemory(mem.evictions > 0), mem;
      }
      if TooLong(op) {
        return Undefined, mem;
      }
      InsertNode(op.key, NewEntry(op, now));
      r := Stored(mem.evictions > 0);
    }

    /** Reuse of a node whose value has the same size. */
    method Overwrite(sd: Node, e: Entry)
      requires Valid() && queue != [] && sd == queue[0] && e.key == sd.key
      modifies sd
      ensures Valid() && Entries() == [e] + old(Entries())[1..]
    {
      assert NoDup(queue);
      hide Views, SameNodes, Inorder;
      ghost var es := Views(queue);
      sd.value, sd.expires, sd.flags := e.value, e.expires, e.flags;
      hide NoDup;
      assert forall i :: 1 <= i < |queue| ==> queue[i].View() == es[i];
      ViewsFirst(queue, e, es);
    }

    method DropFirst(sd: Node)
      requires Valid() && queue != [] && sd == queue[0]
      modifies this`queue, this`tree
      ensures Valid() && queue == old(queue)[1..] && Entries() == old(Entries())[1..]
      ensures forall n :: n in queue ==> n.key != sd.key
    {
      hide Views, Inorder, SameNodes, IndexOf;
      KeysDistinct(Inorder(tree), queue, hash);
      FirstOut(queue);
      FirstOut(Views(queue));
      FirstKey(queue);
      Drop(sd);
    }

    /** incr */
    method IncrHelper(k: Key, delta: real, now: millis) returns (r: IncrResult)
      requires Valid()
      modifies this, queue
      ensures Valid()
      ensures (r, Entries()) == Incr(old(Entries()), k, delta, now)
    {
      hide Views, SameNodes, Lookup, DropDead;
      if |k| == 0 || |k| > 65535 {
        return BadIncrKey;
      }
      var _ := Expire(1, now);
      var rc, sd := LookupNode(k, now);
      if !rc.Ok? {
        return IncrNotFound;
      }
      if !sd.value.Number? {
        return NotANumber;
      }
      var num := sd.value.num + delta;
      Overwrite(sd, Entry(k, Number(num), sd.expires, sd.flags));
      r := Incremented(num);
    }

    /** flush_all */
    method FlushAllEntries(now: millis)
      requires Valid()
      modifies this, queue
      ensures Valid()
      ensures Entries() == FlushAll(old(Entries()), now)
    {
      hide Views, SameNodes, EvictOne;
      MarkNodes();
      var _ := Expire(0, now);
    }

    method MarkNodes()
      requires Valid()
      modifies queue
      ensures Valid() && Entries() == MarkAll(old(Entries()))
    {
      hide Views;
      var i := 0;
      while i < |queue|
        invariant 0 <= i <= |queue|
        invariant forall j :: 0 <= j < i ==> queue[j].View() == old(queue[j].View()).(expires := 1)
        invariant forall j :: i <= j < |queue| ==> queue[j].View() == old(queue[j].View())
      {
        queue[i].expires := 1;
        i := i + 1;
      }
      assert Entries() == MarkAll(old(Entries()));
    }

    /** flush_expired; a limit that is not positive is no limit */
    method FlushExpiredEntries(attempts: int, now: millis) returns (freed: nat)
      requires Valid()
      modifies this`queue, this`tree
      ensures Valid()
      ensures (freed, Entries()) == FlushExpired(old(Entries()), now, Limit(attempts))
    {
      hide Views, SameNodes, Inorder, FlushRest;
      ghost var es := Entries();
      FlushRestStart(es, now, attempts);
      freed := 0;
      var i := |queue|;
      while i > 0
        invariant 0 <= i <= |queue| && Valid()
        invariant attempts > 0 ==> freed < attempts
        invariant FlushRest(Views(queue), i, now, attempts, freed) == FlushExpired(es, now, Limit(attempts))
      {
        var sd := queue[i - 1];
        FlushRestStep(Views(queue), i, now, attempts, freed);
        if sd.expires != 0 && sd.expires <= now {
          DropAt(sd, i - 1);
          freed := freed + 1;
          if attempts != 0 && freed == attempts {
            return;
          }
        }
        i := i - 1;
      }
      FlushRestDone(Views(queue), now, attempts, freed);
    }

    method DropAt(sd: Node, i: nat)
      requires Valid() && i < |queue| && sd == queue[i]
      modifies this`queue, this`tree
      ensures Valid() && |queue| == |old(queue)| - 1
      ensures Views(queue) == Without(Views(old(queue)), i)
    {
      assert IndexOf(queue, sd) == i;
      hide Views, Inorder;
      Drop(sd);
    }

    /** get_keys: one pass to count, one to collect */
    method GetKeyList(attempts: int, now: millis) returns (keys: seq<Key>, total: nat)
      requires Valid()
      ensures keys == GetKeys(Entries(), now, Limit(attempts)) && total == |keys|
    {
      hide Views, SameNodes, GetKeys;
      total := CountKeys(attempts, now);
      ghost var es := Entries();
      KeysStart(es, now, attempts);
      ghost var all := GetKeys(es, now, Limit(attempts));
      keys := [];
      var i := |queue|;
      while i > 0
        invariant 0 <= i <= |queue| == |es|
        invariant attempts > 0 ==> |keys| < attempts
        invariant |keys| <= |all| && keys == all[..|keys|]
        invariant GetKeys(es[..i], now, LimitLess(attempts, |keys|)) == all[|keys|..]
      {
        var sd := queue[i - 1];
        KeysStep(es, i, now, attempts, |keys|);
        i := i - 1;
        if sd.expires == 0 || sd.expires > now {
          keys := keys + [sd.key];
          if attempts != 0 && |keys| == attempts {
            return;
          }
        }
      }
      KeysDone(es, now, LimitLess(attempts, |keys|));
    }

    method CountKeys(attempts: int, now: millis) returns (total: nat)
      requires Valid()
      ensures total == |GetKeys(Entries(), now, Limit(attempts))|
    {
      hide Views, SameNodes, GetKeys;
      ghost var es := Entries();
      KeysStart(es, now, attempts);
      total := 0;
      var i := |queue|;
      while i > 0
        invariant 0 <= i <= |queue| == |es|
        invariant attempts > 0 ==> total < attempts
        invariant total + |GetKeys(es[..i], now, LimitLess(attempts, total))| == |GetKeys(es, now, Limit(attempts))|
      {
        var sd := queue[i - 1];
        KeysStep(es, i, now, attempts, total);
        i := i - 1;
        if sd.expires == 0 || sd.expires > now {
          total := total + 1;
          if attempts != 0 && total == attempts {
            return;
          }
        }
      }
      KeysDone(es, now, LimitLess(attempts, total));
    }
  }

  lemma KeysStart(es: seq<Entry>, now: millis, attempts: int)
    ensures GetKeys(es[..|es|], now, LimitLess(attempts, 0)) == GetKeys(es, now, Limit(attempts))
  {
    assert es[..|es|] == es;
  }

  lemma KeysStep(es: seq<Entry>, i: nat, now: millis, attempts: int, done: nat)
    requires 0 < i <= |es| && (attempts > 0 ==> done < attempts)
    ensures GetKeys(es[..i], now, LimitLess(attempts, done)) ==
      if Past(es[i - 1], now) then GetKeys(es[..i - 1], now, LimitLess(attempts, done))
      else if done + 1 == attempts then [es[i - 1].key]
      else [es[i - 1].key] + GetKeys(es[..i - 1], now, LimitLess(attempts, done + 1))
  {
    assert es[..i][..i - 1] == es[..i - 1];
  }

  lemma KeysDone(es: seq<Entry>, now: millis, limit: nat)
    ensures GetKeys(es[..0], now, limit) == []
  {
  }

  function Limit(attempts: int): nat
  {
    if attempts > 0 then attempts else 0
  }

  function LimitLess(attempts: int, done: nat): nat
    requires attempts > 0 ==> done < attempts
  {
    if attempts > 0 then attempts - done else 0
  }

  /** The outcome of flush_expired when the list from i on is finished and `freed` entries are gone. */
  ghost function FlushRest(es: seq<Entry>, i: nat, now: millis, attempts: int, freed: nat): (nat, seq<Entry>)
    requires i <= |es| && (attempts > 0 ==> freed < attempts)
  {
    var (n, rest) := FlushExpired(es[..i], now, LimitLess(attempts, freed));
    (freed + n, rest + es[i..])
  }

  lemma FlushRestStart(es: seq<Entry>, now: millis, attempts: int)
    ensures FlushRest(es, |es|, now, attempts, 0) == FlushExpired(es, now, Limit(attempts))
  {
    assert es[..|es|] == es;
    var (n, rest) := FlushExpired(es, now, Limit(attempts));
    assert rest + es[|es|..] == rest;
  }

  lemma FlushRestStep(es: seq<Entry>, i: nat, now: millis, attempts: int, freed: nat)
    requires 0 < i <= |es| && (attempts > 0 ==> freed < attempts)
    ensures !Past(es[i - 1], now) ==> FlushRest(es, i, now, attempts, freed) == FlushRest(es, i - 1, now, attempts, freed)
    ensures Past(es[i - 1], now) ==>
      FlushRest(es, i, now, attempts, freed) ==
        if freed + 1 == attempts then (freed + 1, Without(es, i - 1))
        else FlushRest(Without(es, i - 1), i - 1, now, attempts, freed + 1)
  {
    var p := es[..i];
    assert p[..i - 1] == es[..i - 1] && p[i - 1] == es[i - 1];
    assert [es[i - 1]] + es[i..] == es[i - 1..];
    var w := Without(es, i - 1);
    assert w[..i - 1] == es[..i - 1] && w[i - 1..] == es[i..];
    var (n, rest) := FlushExpired(es[..i - 1], now, LimitLess(attempts, freed));
    assert (rest + [es[i - 1]]) + es[i..] == rest + es[i - 1..];
  }

  lemma FlushRestDone(es: seq<Entry>, now: millis, attempts: int, freed: nat)
    requires attempts > 0 ==> freed < attempts
    ensures FlushRest(es, 0, now, attempts, freed) == (freed, es)
  {
    assert [] + es[0..] == es;
  }

  lemma Middle(ns: seq<Node>, i: nat, hi: nat, l: seq<Node>, n: Node, r: seq<Node>)
    requires i <= hi <= |ns| && ns[i..hi] == l + [n] + r
    ensures i + |l| < hi && ns[i + |l|] == n
    ensures ns[i..i + |l|] == l && ns[i + |l| + 1..hi] == r
  {
    var s := ns[i..hi];
    assert s[|l|] == n;
    assert s[..|l|] == l && s[|l| + 1..] == r;
  }

  lemma AllAbove(ns: seq<Node>, m: nat, node: Node)
    requires Sorted(ns) && m < |ns| && Less(node, ns[m])
    ensures forall j :: m <= j < |ns| ==> Less(node, ns[j])
  {
    forall j | m < j < |ns|
      ensures Less(node, ns[j])
    {
      LessTrans(node, ns[m], ns[j]);
    }
  }

  lemma AllBelow(ns: seq<Node>, m: nat, node: Node)
    requires Sorted(ns) && m < |ns| && Less(ns[m], node)
    ensures forall j :: 0 <= j <= m ==> Less(ns[j], node)
  {
    forall j | 0 <= j < m
      ensures Less(ns[j], node)
    {
      LessTrans(ns[j], ns[m], node);
    }
  }

  /** What expire leaves of a list when its counter stands at n. */
  ghost function Remaining(es: seq<Entry>, now: millis, n: nat): seq<Entry>
    requires n <= 3
  {
    if n == 0 then EvictOne(es, now) else DropDead(es, now, 3 - n)
  }

  lemma RemainingStart(es: seq<Entry>, now: millis)
    ensures Remaining(es, now, 0) == EvictOne(es, now) && Remaining(es, now, 1) == DropDead(es, now, 2)
  {
  }

  lemma RemainingDrop(es: seq<Entry>, now: millis, n: nat)
    requires n < 3 && es != [] && (n == 0 || Dead(es[|es| - 1], now))
    ensures Remaining(es, now, n) == Remaining(es[..|es| - 1], now, n + 1)
  {
  }

  lemma RemainingStop(es: seq<Entry>, now: millis, n: nat)
    requires n == 3 || es == [] || (n < 3 && n != 0 && !Dead(es[|es| - 1], now))
    requires n <= 3
    ensures Remaining(es, now, n) == es
  {
  }

  lemma NotThere(q: seq<Node>, k: Key)
    requires forall n :: n in q ==> n.key != k
    ensures Find(Views(q), k) == |q|
  {
  }
}
