/** An ordered map from integer keys to values kept in an unbalanced binary search
    tree (Binary/treemap.h). Every instantiation in the repository uses `int` keys. */
module Treemaps {
  import opened Failures

  /** A node owns its two subtrees; Leaf is the empty `unique_ptr`. */
  datatype Tree<V> = Leaf | Node(key: int, value: V, left: Tree<V>, right: Tree<V>)

  function Keys<V>(t: Tree<V>): set<int>
  {
    match t
    case Leaf => {}
    case Node(k, _, l, r) => Keys(l) + Keys(r) + {k}
  }

  /** The values stored in the nodes. */
  function Values<V>(t: Tree<V>): set<V>
  {
    match t
    case Leaf => {}
    case Node(_, v, l, r) => Values(l) + Values(r) + {v}
  }

  /** The mapping a tree represents. */
  function Elements<V>(t: Tree<V>): (m: map<int, V>)
    ensures m.Keys == Keys(t)
  {
    match t
    case Leaf => map[]
    case Node(k, v, l, r) => Elements(l) + Elements(r) + map[k := v]
  }

  /** The search-tree order: left keys below the node's key, right keys above. */
  ghost predicate BST<V>(t: Tree<V>)
  {
    match t
    case Leaf => true
    case Node(k, _, l, r) =>
      BST(l) && BST(r) &&
      (forall j :: j in Keys(l) ==> j < k) && (forall j :: j in Keys(r) ==> k < j)
  }

  /** In a search tree a key in the left subtree maps as the left subtree says, and
      likewise on the right. */
  lemma SubtreeLookup<V>(t: Tree<V>, key: int)
    requires BST(t) && t.Node?
    ensures key < t.key ==> (key in Keys(t) <==> key in Keys(t.left))
    ensures key < t.key && key in Keys(t) ==> Elements(t)[key] == Elements(t.left)[key]
    ensures key > t.key ==> (key in Keys(t) <==> key in Keys(t.right))
    ensures key > t.key && key in Keys(t) ==> Elements(t)[key] == Elements(t.right)[key]
    ensures key == t.key ==> key in Keys(t) && Elements(t)[key] == t.value
  {
    if key < t.key && key in Keys(t.right) {
      assert false;
    }
  }

  /** `Insert(n, key, value)`: the key goes in at the empty slot the search ends in;
      the search stopping at a node with the same key refuses it. */
  function InsertAt<V>(t: Tree<V>, key: int, value: V): Result<Tree<V>>
  {
    match t
    case Leaf => Ok(Node(key, value, Leaf, Leaf))
    case Node(k, v, l, rt) =>
      if key < k then
        match InsertAt(l, key, value)
        case Err(e) => Err(e)
        case Ok(l') => Ok(Node(k, v, l', rt))
      else if key > k then
        match InsertAt(rt, key, value)
        case Err(e) => Err(e)
        case Ok(r') => Ok(Node(k, v, l, r'))
      else Err(InvalidArgument)
  }

  /** Inserting into a search tree refuses exactly the keys already present, and
      otherwise gives a search tree with one key more. */
  lemma {:induction false} InsertAtKeys<V>(t: Tree<V>, key: int, value: V)
    requires BST(t)
    ensures key in Keys(t) ==> InsertAt(t, key, value) == Err(InvalidArgument)
    ensures key !in Keys(t) ==> InsertAt(t, key, value).Ok?
    ensures key !in Keys(t) ==> BST(InsertAt(t, key, value).value)
    ensures key !in Keys(t) ==> Keys(InsertAt(t, key, value).value) == Keys(t) + {key}
  {
    match t
    case Leaf =>
    case Node(k, v, l, rt) =>
      SubtreeLookup(t, key);
      if key < k {
        InsertAtKeys(l, key, value);
        if key !in Keys(t) {
          Reassemble(k, v, InsertAt(l, key, value).value, rt, Keys(l) + {key}, Keys(rt));
        }
      } else if key > k {
        InsertAtKeys(rt, key, value);
        if key !in Keys(t) {
          Reassemble(k, v, l, InsertAt(rt, key, value).value, Keys(l), Keys(rt) + {key});
        }
      }
  }

  /** Inserting an absent key adds exactly the mapping key -> value. */
  lemma {:induction false} InsertAtElements<V>(t: Tree<V>, key: int, value: V)
    requires BST(t) && key !in Keys(t)
    ensures InsertAt(t, key, value).Ok?
    ensures Elements(InsertAt(t, key, value).value) == Elements(t)[key := value]
  {
    InsertAtKeys(t, key, value);
    match t
    case Leaf =>
    case Node(k, v, l, rt) =>
      if key < k {
        InsertAtElements(l, key, value);
        UpdateLeft(Elements(l), Elements(rt), k, v, key, value);
      } else {
        InsertAtElements(rt, key, value);
        UpdateRight(Elements(l), Elements(rt), k, v, key, value);
      }
  }

  /** A node over two search trees whose keys lie within bounds on either side of
      its own key is a search tree. */
  lemma Reassemble<V>(k: int, v: V, l: Tree<V>, r: Tree<V>, below: set<int>, above: set<int>)
    requires BST(l) && BST(r) && Keys(l) <= below && Keys(r) <= above
    requires forall j :: j in below ==> j < k
    requires forall j :: j in above ==> k < j
    ensures BST(Node(k, v, l, r))
  {
  }

  /** How the mapping of a node changes when one of its subtrees changes. */
  lemma UpdateLeft<V>(a: map<int, V>, b: map<int, V>, k: int, v: V, key: int, value: V)
    requires key !in b && key != k
    ensures a[key := value] + b + map[k := v] == (a + b + map[k := v])[key := value]
  {
  }

  lemma UpdateRight<V>(a: map<int, V>, b: map<int, V>, k: int, v: V, key: int, value: V)
    requires key != k
    ensures a + b[key := value] + map[k := v] == (a + b + map[k := v])[key := value]
  {
  }

  lemma DeleteLeft<V>(a: map<int, V>, b: map<int, V>, k: int, v: V, key: int)
    requires key !in b && key != k
    ensures (a - {key}) + b + map[k := v] == (a + b + map[k := v]) - {key}
  {
  }

  lemma DeleteRight<V>(a: map<int, V>, b: map<int, V>, k: int, v: V, key: int)
    requires key !in a && key != k
    ensures a + (b - {key}) + map[k := v] == (a + b + map[k := v]) - {key}
  {
  }

  /** Overwriting a node with its successor and deleting the successor below it
      deletes the node's own key. */
  lemma DeleteBySuccessor<V>(a: map<int, V>, b: map<int, V>, k: int, v: V, k': int, v': V)
    requires k !in a && k !in b && k' !in a && k' in b && b[k'] == v'
    ensures a + (b - {k'}) + map[k' := v'] == (a + b + map[k := v]) - {k}
  {
  }

  /** `Min(n)`: the leftmost node's key and value. */
  function Least<V>(t: Tree<V>): (kv: (int, V))
    requires t.Node?
  {
    if t.left.Leaf? then (t.key, t.value) else Least(t.left)
  }

  /** The leftmost node holds the least key and the value it maps to. */
  lemma {:induction false} LeastIsMinimum<V>(t: Tree<V>)
    requires BST(t) && t.Node?
    ensures Least(t).0 in Keys(t) && Elements(t)[Least(t).0] == Least(t).1
    ensures forall k :: k in Keys(t) ==> Least(t).0 <= k
  {
    if t.left.Node? {
      LeastIsMinimum(t.left);
      SubtreeLookup(t, Least(t).0);
    }
  }

  /** `Max(n)`: the rightmost node's key and value. */
  function Greatest<V>(t: Tree<V>): (kv: (int, V))
    requires t.Node?
  {
    if t.right.Leaf? then (t.key, t.value) else Greatest(t.right)
  }

  lemma {:induction false} GreatestIsMaximum<V>(t: Tree<V>)
    requires BST(t) && t.Node?
    ensures Greatest(t).0 in Keys(t) && Elements(t)[Greatest(t).0] == Greatest(t).1
    ensures forall k :: k in Keys(t) ==> k <= Greatest(t).0
  {
    if t.right.Node? {
      GreatestIsMaximum(t.right);
      SubtreeLookup(t, Greatest(t).0);
    }
  }

  /** `Remove(n, key)`: returns the new tree and whether a node was unlinked. A node
      with two children takes over its in-order successor's key and value, and the
      successor is removed from the right subtree instead. */
  function RemoveAt<V>(t: Tree<V>, key: int): (Tree<V>, bool)
  {
    match t
    case Leaf => (Leaf, false)
    case Node(k, v, l, rt) =>
      if key < k then
        var (l', removed) := RemoveAt(l, key);
        (Node(k, v, l', rt), removed)
      else if key > k then
        var (r', removed) := RemoveAt(rt, key);
        (Node(k, v, l, r'), removed)
      else if l.Node? && rt.Node? then
        var (k', v') := Least(rt);
        var (r', removed) := RemoveAt(rt, k');
        (Node(k', v', l, r'), removed)
      else
        (if l.Node? then l else rt, true)
  }

  /** Removal reports an unlinked node exactly when the key was present. */
  lemma {:induction false} RemoveAtReports<V>(t: Tree<V>, key: int)
    requires BST(t)
    ensures RemoveAt(t, key).1 <==> key in Keys(t)
  {
    match t
    case Leaf =>
    case Node(k, v, l, rt) =>
      SubtreeLookup(t, key);
      if key < k {
        RemoveAtReports(l, key);
      } else if key > k {
        RemoveAtReports(rt, key);
      } else if l.Node? && rt.Node? {
        LeastIsMinimum(rt);
        RemoveAtReports(rt, Least(rt).0);
      }
  }

  /** Removing from a search tree leaves a search tree. */
  lemma {:induction false} RemoveAtOrdered<V>(t: Tree<V>, key: int)
    requires BST(t)
    ensures BST(RemoveAt(t, key).0)
  {
    match t
    case Leaf =>
    case Node(k, v, l, rt) =>
      if key < k {
        RemoveAtOrdered(l, key);
        RemoveAtKeys(l, key);
        Reassemble(k, v, RemoveAt(l, key).0, rt, Keys(l), Keys(rt));
      } else if key > k {
        RemoveAtOrdered(rt, key);
        RemoveAtKeys(rt, key);
        Reassemble(k, v, l, RemoveAt(rt, key).0, Keys(l), Keys(rt));
      } else if l.Node? && rt.Node? {
        var (k', v') := Least(rt);
        LeastIsMinimum(rt);
        RemoveAtOrdered(rt, k');
        RemoveAtKeys(rt, k');
        Reassemble(k', v', l, RemoveAt(rt, k').0, Keys(l), Keys(rt) - {k'});
      }
  }

  /** Removing from a search tree deletes exactly the mapping of the key. */
  lemma {:induction false} RemoveAtElements<V>(t: Tree<V>, key: int)
    requires BST(t)
    ensures Elements(RemoveAt(t, key).0) == Elements(t) - {key}
  {
    match t
    case Leaf =>
    case Node(k, v, l, rt) =>
      if key < k {
        RemoveAtElements(l, key);
        DeleteLeft(Elements(l), Elements(rt), k, v, key);
      } else if key > k {
        RemoveAtElements(rt, key);
        DeleteRight(Elements(l), Elements(rt), k, v, key);
      } else if l.Node? && rt.Node? {
        var (k', v') := Least(rt);
        LeastIsMinimum(rt);
        RemoveAtElements(rt, k');
        DeleteBySuccessor(Elements(l), Elements(rt), k, v, k', v');
      }
  }

  /** Removing from a search tree takes out exactly the key. */
  lemma RemoveAtKeys<V>(t: Tree<V>, key: int)
    requires BST(t)
    ensures Keys(RemoveAt(t, key).0) == Keys(t) - {key}
  {
    RemoveAtElements(t, key);
    assert (Elements(t) - {key}).Keys == Keys(t) - {key};
  }

  /** `FloorKey(n, key)`: the key of the node the recursive descent settles on. */
  function FloorAt<V>(t: Tree<V>, key: int): (r: Option<int>)
    requires BST(t)
    ensures r.Some? ==> r.value in Keys(t) && r.value <= key
    ensures r.Some? ==> forall k :: k in Keys(t) && k <= key ==> k <= r.value
    ensures r.None? ==> forall k :: k in Keys(t) ==> key < k
  {
    match t
    case Leaf => None
    case Node(k, _, l, rt) =>
      if k > key then FloorAt(l, key)
      else if k < key then
        match FloorAt(rt, key)
        case None => Some(k)
        case Some(f) => Some(f)
      else Some(k)
  }

  /** `CeilKey(n, key)`: the mirror image of FloorAt. */
  function CeilAt<V>(t: Tree<V>, key: int): (r: Option<int>)
    requires BST(t)
    ensures r.Some? ==> r.value in Keys(t) && key <= r.value
    ensures r.Some? ==> forall k :: k in Keys(t) && key <= k ==> r.value <= k
    ensures r.None? ==> forall k :: k in Keys(t) ==> k < key
  {
    match t
    case Leaf => None
    case Node(k, _, l, rt) =>
      if k > key then
        match CeilAt(l, key)
        case None => Some(k)
        case Some(c) => Some(c)
      else if k < key then CeilAt(rt, key)
      else Some(k)
  }

  /** `ContainsValue(n, value)`: some node of the tree holds the value. */
  function ContainsValueAt<V(==)>(t: Tree<V>, value: V): (b: bool)
    ensures b <==> value in Values(t)
  {
    match t
    case Leaf => false
    case Node(_, v, l, rt) =>
      if v == value then true
      else if ContainsValueAt(l, value) || ContainsValueAt(rt, value) then true
      else false
  }

  /** A key that a value of a map is mapped from. */
  lemma KeyOf<V>(m: map<int, V>, value: V) returns (j: int)
    requires exists k :: k in m && m[k] == value
    ensures j in m && m[j] == value
  {
    j :| j in m && m[j] == value;
  }

  /** In a search tree the node values are exactly the values the mapping takes. */
  lemma {:induction false} ValuesAreMapped<V>(t: Tree<V>, value: V)
    requires BST(t)
    ensures value in Values(t) <==> exists j :: j in Elements(t) && Elements(t)[j] == value
  {
    match t
    case Leaf =>
    case Node(k, v, l, rt) =>
      ValuesAreMapped(l, value);
      ValuesAreMapped(rt, value);
      var m := Elements(t);
      if value == v {
        assert k in m && m[k] == value;
        assert value in Values(t);
        assert exists j :: j in Elements(t) && Elements(t)[j] == value;
      } else if value in Values(l) {
        var j := KeyOf(Elements(l), value);
        SubtreeLookup(t, j);
        assert m[j] == value;
      } else if value in Values(rt) {
        var j := KeyOf(Elements(rt), value);
        SubtreeLookup(t, j);
        assert m[j] == value;
      } else {
        forall j | j in m
          ensures m[j] != value
        {
          SubtreeLookup(t, j);
        }
      }
  }

  class Treemap<V(==)> {
    var root: Tree<V>
    var size: int

    /** The search-tree order holds and `size` counts the mappings. */
    ghost predicate Valid()
      reads this
    {
      BST(root) && size == |Keys(root)|
    }

    /** The mapping the map holds. */
    function Mapping(): map<int, V>
      reads this
    {
      Elements(root)
    }

    constructor ()
      ensures Valid() && Mapping() == map[]
    {
      root := Leaf;
      size := 0;
    }

    function Size(): (n: int)
      reads this
      requires Valid()
      ensures n == |Mapping()|
    {
      size
    }

    function Empty(): (b: bool)
      reads this
      requires Valid()
      ensures b <==> Mapping() == map[]
    {
      if size == 0 then true else false
    }

    /** Adds the mapping key -> value, or refuses a key already present and leaves
        the map as it was. */
    method Insert(key: int, value: V) returns (r: Outcome)
      requires Valid()
      modifies this
      ensures Valid()
      ensures key in old(Mapping()) ==> r == Fail(InvalidArgument) && root == old(root) && size == old(size)
      ensures key !in old(Mapping()) ==> r == Pass && Mapping() == old(Mapping())[key := value]
    {
      InsertAtKeys(root, key, value);
      if key !in Keys(root) {
        InsertAtElements(root, key, value);
      }
      var t := InsertAt(root, key, value);
      if t.Err? {
        return Fail(t.error);
      }
      root := t.value;
      size := size + 1;
      r := Pass;
    }

    /** Deletes the mapping of key; an absent key is reported after the search. */
    method Remove(key: int) returns (r: Outcome)
      requires Valid()
      modifies this
      ensures Valid()
      ensures Mapping() == old(Mapping()) - {key}
      ensures key in old(Mapping()) <==> r == Pass
      ensures key !in old(Mapping()) ==> r == Fail(InvalidArgument) && root == old(root)
    {
      var a := size;
      RemoveAtKeys(root, key);
      RemoveAtReports(root, key);
      RemoveAtOrdered(root, key);
      RemoveAtElements(root, key);
      if key !in Keys(root) {
        RemoveAbsent(root, key);
      }
      var (t, removed) := RemoveAt(root, key);
      root := t;
      if removed {
        size := size - 1;
      }
      if size == a {
        return Fail(InvalidArgument);
      }
      r := Pass;
    }

    /** The value key maps to; an empty map and an absent key fail differently. */
    method Get(key: int) returns (r: Result<V>)
      requires Valid()
      ensures key in Mapping() ==> r == Ok(Mapping()[key])
      ensures Mapping() == map[] ==> r == Err(OutOfRange)
      ensures Mapping() != map[] && key !in Mapping() ==> r == Err(InvalidArgument)
    {
      if root.Leaf? {
        return Err(OutOfRange);
      }
      var n := root;
      while n.Node?
        invariant BST(n)
        invariant key in Keys(root) <==> key in Keys(n)
        invariant key in Keys(n) ==> Elements(root)[key] == Elements(n)[key]
        decreases n
      {
        SubtreeLookup(n, key);
        if key == n.key {
          return Ok(n.value);
        } else if key < n.key {
          n := n.left;
        } else if key > n.key {
          n := n.right;
        }
      }
      r := Err(InvalidArgument);
    }

    function FloorKey(key: int): (r: Result<int>)
      reads this
      requires Valid()
      ensures Mapping() == map[] ==> r == Err(OutOfRange)
      ensures r.Ok? ==> r.value in Mapping() && r.value <= key
      ensures r.Ok? ==> forall k :: k in Mapping() && k <= key ==> k <= r.value
      ensures Mapping() != map[] && r.Err? ==> r == Err(InvalidArgument)
      ensures Mapping() != map[] && r.Err? ==> forall k :: k in Mapping() ==> key < k
    {
      if root.Leaf? then Err(OutOfRange)
      else match FloorAt(root, key)
        case None => Err(InvalidArgument)
        case Some(k) => Ok(k)
    }

    function CeilKey(key: int): (r: Result<int>)
      reads this
      requires Valid()
      ensures Mapping() == map[] ==> r == Err(OutOfRange)
      ensures r.Ok? ==> r.value in Mapping() && key <= r.value
      ensures r.Ok? ==> forall k :: k in Mapping() && key <= k ==> r.value <= k
      ensures Mapping() != map[] && r.Err? ==> r == Err(InvalidArgument)
      ensures Mapping() != map[] && r.Err? ==> forall k :: k in Mapping() ==> k < key
    {
      if root.Leaf? then Err(OutOfRange)
      else match CeilAt(root, key)
        case None => Err(InvalidArgument)
        case Some(k) => Ok(k)
    }

    method ContainsKey(key: int) returns (b: bool)
      requires Valid()
      ensures b <==> key in Mapping()
    {
      var n := root;
      while n.Node?
        invariant BST(n)
        invariant key in Keys(root) <==> key in Keys(n)
        decreases n
      {
        SubtreeLookup(n, key);
        if key == n.key {
          return true;
        } else if key < n.key {
          n := n.left;
        } else if key > n.key {
          n := n.right;
        }
      }
      b := false;
    }

    function ContainsValue(value: V): (b: bool)
      reads this
      requires Valid()
      ensures b <==> exists k :: k in Mapping() && Mapping()[k] == value
    {
      ValuesAreMapped(root, value);
      assert Mapping() == Elements(root);
      ContainsValueAt(root, value)
    }

    method MaxKey() returns (r: Result<int>)
      requires Valid()
      ensures Mapping() == map[] ==> r == Err(OutOfRange)
      ensures Mapping() != map[] ==> r.Ok? && r.value in Mapping()
      ensures Mapping() != map[] ==> r.Ok? && forall k :: k in Mapping() ==> k <= r.value
    {
      if root.Leaf? {
        return Err(OutOfRange);
      }
      var k, _ := Max(root);
      GreatestIsMaximum(root);
      r := Ok(k);
    }

    method MinKey() returns (r: Result<int>)
      requires Valid()
      ensures Mapping() == map[] ==> r == Err(OutOfRange)
      ensures Mapping() != map[] ==> r.Ok? && r.value in Mapping()
      ensures Mapping() != map[] ==> r.Ok? && forall k :: k in Mapping() ==> r.value <= k
    {
      if root.Leaf? {
        return Err(OutOfRange);
      }
      var k, _ := Min(root);
      LeastIsMinimum(root);
      r := Ok(k);
    }
  }

  /** Removing an absent key gives back the same tree. */
  lemma {:induction false} RemoveAbsent<V>(t: Tree<V>, key: int)
    requires BST(t) && key !in Keys(t)
    ensures RemoveAt(t, key).0 == t
  {
    match t
    case Leaf =>
    case Node(k, _, l, rt) =>
      if key < k {
        RemoveAbsent(l, key);
      } else {
        RemoveAbsent(rt, key);
      }
  }

  /** The walk down the left spine. */
  method Min<V>(t: Tree<V>) returns (key: int, value: V)
    requires t.Node?
    ensures (key, value) == Least(t)
  {
    var n := t;
    while n.left.Node?
      invariant n.Node? && Least(n) == Least(t)
      decreases n
    {
      n := n.left;
    }
    key, value := n.key, n.value;
  }

  /** The walk down the right spine. */
  method Max<V>(t: Tree<V>) returns (key: int, value: V)
    requires t.Node?
    ensures (key, value) == Greatest(t)
  {
    var n := t;
    while n.right.Node?
      invariant n.Node? && Greatest(n) == Greatest(t)
      decreases n
    {
      n := n.right;
    }
    key, value := n.key, n.value;
  }
}
