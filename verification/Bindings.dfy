/** The tree of key bindings as the editor keeps it: nodes with a vector of
    children, changed in place (src/bind.c). Every method is tied to the
    value in Keymap. */
module Bindings {
  import opened Basics
  import opened Keymap
  import K = Keys

  class Binding {
    var key: nat
    var proc: Proc
    var vec: seq<Binding>
    var vecmax: nat

    ghost var repr: set<Binding>
    ghost var tree: Tree

    /** The children own disjoint parts of the tree. */
    ghost predicate Valid()
      reads this, repr
      decreases repr, 1
    {
      && this in repr && |vec| <= vecmax
      && tree.key == key && tree.proc == proc && |tree.kids| == |vec|
      && (forall i :: 0 <= i < |vec| ==> vec[i] in repr && vec[i].repr < repr && this !in vec[i].repr
                                         && vec[i].Valid() && tree.kids[i] == vec[i].tree)
      && (forall i, j :: 0 <= i < j < |vec| ==> vec[i].repr !! vec[j].repr)
    }

    /** node_new, with the key its caller sets. */
    constructor (k: nat, max: nat)
      ensures Valid() && fresh(repr) && repr == {this} && tree == Node(k, None, []) && vecmax == max
    {
      key, proc, vec, vecmax := k, None, [], max;
      repr, tree := {this}, Node(k, None, []);
    }

    /** Valid, except that the i-th child has changed under this node. */
    ghost predicate ValidBut(i: nat)
      reads this, repr, vec, if i < |vec| then vec[i].repr else {}
    {
      && i < |vec| && this in repr && |vec| <= vecmax
      && tree.key == key && tree.proc == proc && |tree.kids| == |vec|
      && (forall j :: 0 <= j < |vec| && j != i ==> vec[j] in repr && vec[j].repr < repr && this !in vec[j].repr
                                                   && vec[j].Valid() && tree.kids[j] == vec[j].tree)
      && (forall j, k :: 0 <= j < k < |vec| && j != i && k != i ==> vec[j].repr !! vec[k].repr)
      && (forall j :: 0 <= j < |vec| && j != i ==> vec[j].repr !! vec[i].repr)
      && vec[i].Valid() && this !in vec[i].repr
    }

    /** Take note of the change. */
    ghost method Adopt(i: nat)
      requires ValidBut(i)
      modifies this`repr, this`tree
      ensures Valid() && repr == old(repr) + vec[i].repr
      ensures tree == old(tree).(kids := old(tree).kids[i := vec[i].tree])
    {
      repr := repr + vec[i].repr;
      tree := Node(tree.key, tree.proc, tree.kids[i := vec[i].tree]);
    }
  }

  /** search_node. */
  method SearchNode(tree: Binding, key: nat) returns (i: nat)
    requires tree.Valid()
    ensures var r := Find(tree.tree.kids, key);
            if r.None? then i == |tree.vec| else i == r.value && i < |tree.vec|
  {
    i := 0;
    while i < |tree.vec|
      invariant i <= |tree.vec| && forall j :: 0 <= j < i ==> tree.tree.kids[j].key != key
    {
      if tree.vec[i].key == key {
        FindUnique(tree.tree.kids, key, i);
        return;
      }
      i := i + 1;
    }
  }

  /** add_node: append p to the children, growing the vector when it is
      nearly full; a leaf that becomes a prefix loses its procedure. */
  method AddNode(tree: Binding, p: Binding)
    requires tree.Valid() && p.Valid() && tree.repr !! p.repr
    modifies tree
    ensures tree.Valid() && tree.repr == old(tree.repr) + p.repr && tree.vec == old(tree.vec) + [p]
    ensures tree.tree == Keymap.AddNode(old(tree.tree), p.tree) && |tree.vec| < tree.vecmax
  {
    if |tree.vec| == 0 {
      tree.proc := None;
    }
    if |tree.vec| + 1 >= tree.vecmax {
      tree.vecmax := tree.vecmax + 5;
    }
    tree.vec := tree.vec + [p];
    tree.repr := tree.repr + p.repr;
    tree.tree := Node(tree.key, tree.proc, tree.tree.kids + [p.tree]);
  }

  method SetProc(s: Binding, proc: Proc)
    requires s.Valid()
    modifies s
    ensures s.Valid() && s.repr == old(s.repr) && s.tree == old(s.tree).(proc := proc)
  {
    s.proc := proc;
    s.tree := s.tree.(proc := proc);
  }

  /** bind_key_vec, on the keys from `from` on. */
  method BindKeyVec(tree: Binding, keys: seq<nat>, from: nat, proc: Proc)
    requires tree.Valid() && from < |keys|
    modifies tree.repr
    ensures tree.Valid() && fresh(tree.repr - old(tree.repr))
    ensures tree.tree == Bind(old(tree.tree), keys[from..], proc)
    decreases |keys| - from, 1
  {
    var i := SearchNode(tree, keys[from]);
    if i == |tree.vec| {
      var p := new Binding(keys[from], if |keys| - from == 1 then 1 else 5);
      AddNode(tree, p);
    }
    BindInKid(tree, i, keys, from, proc);
  }

  /** The rest of it, in the i-th child. */
  method BindInKid(tree: Binding, i: nat, keys: seq<nat>, from: nat, proc: Proc)
    requires tree.Valid() && from < |keys| && i < |tree.vec|
    modifies tree.repr
    ensures tree.Valid() && fresh(tree.repr - old(tree.repr))
    ensures tree.tree == BoundInKid(old(tree.tree), i, keys[from..], proc)
    decreases |keys| - from, 0
  {
    if |keys| - from > 1 {
      assert keys[from..][1..] == keys[from + 1..];
      BindKeyVec(tree.vec[i], keys, from + 1, proc);
    } else {
      SetProc(tree.vec[i], proc);
    }
    tree.Adopt(i);
  }

  function BoundInKid(t: Tree, i: nat, keys: Keys, proc: Proc): Tree
    requires i < |t.kids|
  {
    t.(kids := t.kids[i := if |keys| > 1 then Bind(t.kids[i], keys[1..], proc) else t.kids[i].(proc := proc)])
  }

  /** search_key, on the keys from `from` on. */
  method SearchKey(tree: Binding, keys: seq<nat>, from: nat) returns (p: Binding?)
    requires tree.Valid() && from < |keys|
    ensures var s := Search(tree.tree, keys[from..]);
            if s.None? then p == null else p != null && p.proc == s.value.proc
    decreases |keys| - from
  {
    var i := SearchNode(tree, keys[from]);
    if i == |tree.vec| {
      return null;
    }
    if |keys| - from == 1 {
      return tree.vec[i];
    }
    assert keys[from..][1..] == keys[from + 1..];
    p := SearchKey(tree.vec[i], keys, from + 1);
  }

  /** What the keyboard gives from the k-th read on. */
  function From(input: nat -> nat, k: nat): nat -> nat {
    (i: nat) => input(k + i)
  }

  /** get_key_sequence, fed from an endless keyboard on which a key is pressed
      sometime. It waits for a first key, and from there stops after at most
      one key more than the tree is high, as soon as the keys are not those of
      a prefix. */
  method GetKeySequence(root: Binding, input: nat -> nat, ghost sometime: nat) returns (keys: Keys, waited: nat)
    requires root.Valid() && input(sometime) != K.KBD_NOKEY
    ensures input(waited) != K.KBD_NOKEY && forall i: nat :: i < waited ==> input(i) == K.KBD_NOKEY
    ensures keys == Typed(From(input, waited), |keys|) && 0 < |keys| <= Height(root.tree.kids) + 1
    ensures !Pending(root.tree, keys)
    ensures forall n: nat :: 0 < n < |keys| ==> Pending(root.tree, Typed(From(input, waited), n))
  {
    waited := 0;
    while input(waited) == K.KBD_NOKEY
      invariant waited <= sometime && forall i: nat :: i < waited ==> input(i) == K.KBD_NOKEY
      decreases sometime - waited
    {
      waited := waited + 1;
    }
    keys := ReadSequence(root, From(input, waited));
  }

  /** The loop after the first key. */
  method ReadSequence(root: Binding, input: nat -> nat) returns (keys: Keys)
    requires root.Valid()
    ensures keys == Typed(input, |keys|) && 0 < |keys| <= Height(root.tree.kids) + 1
    ensures !Pending(root.tree, keys)
    ensures forall n: nat :: 0 < n < |keys| ==> Pending(root.tree, Typed(input, n))
  {
    keys := [input(0)];
    while true
      invariant keys == Typed(input, |keys|) && 0 < |keys| <= Height(root.tree.kids) + 1
      invariant forall n: nat :: 0 < n < |keys| ==> Pending(root.tree, Typed(input, n))
      decreases Height(root.tree.kids) + 1 - |keys|
    {
      assert keys[0..] == keys;
      var p := SearchKey(root, keys, 0);
      if p == null || p.proc.Some? {
        return;
      }
      SearchWithinHeight(root.tree, keys);
      assert keys + [input(|keys|)] == Typed(input, |keys| + 1);
      keys := keys + [input(|keys|)];
    }
  }

  /** The list of keys a walk keeps, and what it has reported. */
  class Walker {
    var keys: seq<nat>
    var reported: seq<(seq<nat>, string)>

    constructor ()
      ensures keys == [] && reported == []
    {
      keys, reported := [], [];
    }

    /** walk_bindings_tree. It leaves the list of keys as it was. */
    method Walk(tree: Binding)
      requires tree.Valid()
      modifies this
      ensures keys == old(keys)
      ensures reported == old(reported) + Keymap.Walk(tree.tree.kids, keys)
      decreases tree.repr
    {
      ghost var kids := tree.tree.kids;
      var i := 0;
      while i < |tree.vec|
        invariant i <= |tree.vec| && keys == old(keys)
        invariant reported + Keymap.Walk(kids[i..], keys) == old(reported) + Keymap.Walk(kids, keys)
      {
        WalkStep(reported, kids, i, keys);
        var p := tree.vec[i];
        if p.proc.Some? {
          reported := reported + [(keys + [p.key], p.proc.value)];
        } else {
          keys := keys + [p.key];
          Walk(p);
          keys := keys[..|keys| - 1];
        }
        i := i + 1;
      }
    }
  }

  lemma WalkStep(done: seq<(seq<nat>, string)>, kids: seq<Tree>, i: nat, keys: seq<nat>)
    requires i < |kids|
    ensures var path := keys + [kids[i].key];
            done + Keymap.Walk(kids[i..], keys)
            == done + (if kids[i].proc.Some? then [(path, kids[i].proc.value)] else Keymap.Walk(kids[i].kids, path))
               + Keymap.Walk(kids[i + 1..], keys)
  {
    assert kids[i..][1..] == kids[i + 1..];
  }
}
