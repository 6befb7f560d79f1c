/** The tree of key bindings, as a value (src/bind.c:65-131, 164-186,
    548-573). */
module Keymap {
  import opened Basics

  /** A procedure, by its name. None stands for a value that is not one. */
  type Proc = Option<string>

  datatype Tree = Node(key: nat, proc: Proc, kids: seq<Tree>)

  /** A key sequence is never empty. */
  type Keys = ks: seq<nat> | ks != [] witness [0]

  // ---------------------------------------------------------------------
  // Looking up and binding
  // ---------------------------------------------------------------------

  /** search_node: the index of the first child with this key. */
  function Find(kids: seq<Tree>, key: nat): (r: Option<nat>)
    ensures r.Some? ==> r.value < |kids| && kids[r.value].key == key
                        && forall j :: 0 <= j < r.value ==> kids[j].key != key
    ensures r.None? ==> forall j :: 0 <= j < |kids| ==> kids[j].key != key
  {
    if kids == [] then None
    else if kids[0].key == key then Some(0)
    else
      var r := Find(kids[1..], key);
      if r.None? then None else Some(r.value + 1)
  }

  /** Find gives the only index it can. */
  lemma FindUnique(kids: seq<Tree>, key: nat, i: nat)
    requires i < |kids| && kids[i].key == key && forall j :: 0 <= j < i ==> kids[j].key != key
    ensures Find(kids, key) == Some(i)
  {
  }

  /** search_key. */
  function Search(t: Tree, keys: Keys): Option<Tree>
    decreases |keys|
  {
    var i := Find(t.kids, keys[0]);
    if i.None? then None
    else if |keys| == 1 then Some(t.kids[i.value])
    else Search(t.kids[i.value], keys[1..])
  }

  /** add_node: a leaf that becomes a prefix loses its binding. */
  function AddNode(t: Tree, p: Tree): Tree {
    Node(t.key, if t.kids == [] then None else t.proc, t.kids + [p])
  }

  /** bind_key_vec. */
  function Bind(t: Tree, keys: Keys, proc: Proc): (r: Tree)
    ensures r.key == t.key
    decreases |keys|
  {
    var i := Find(t.kids, keys[0]);
    if i.None? then
      AddNode(t, if |keys| == 1 then Node(keys[0], proc, []) else Bind(Node(keys[0], None, []), keys[1..], proc))
    else
      var s := t.kids[i.value];
      t.(kids := t.kids[i.value := if |keys| > 1 then Bind(s, keys[1..], proc) else s.(proc := proc)])
  }

  /** The procedure bound to a key sequence, if any. */
  function ProcAt(t: Tree, keys: Keys): Proc {
    var s := Search(t, keys);
    if s.None? then None else s.value.proc
  }

  predicate LeafAt(t: Tree, keys: Keys) {
    var s := Search(t, keys);
    s.Some? && s.value.kids == []
  }

  predicate ProperPrefix(q: Keys, keys: Keys) {
    q < keys
  }

  /** The child that bind_key_vec goes on to, which it may have just made. */
  function Under(t: Tree, key: nat): Tree {
    var i := Find(t.kids, key);
    if i.None? then Node(key, None, []) else t.kids[i.value]
  }

  /** One step of bind_key_vec, seen from the outside. */
  lemma BindStep(t: Tree, keys: Keys, proc: Proc) returns (at: nat)
    ensures var t' := Bind(t, keys, proc);
            && Find(t'.kids, keys[0]) == Some(at)
            && t'.kids[at] == (if |keys| > 1 then Bind(Under(t, keys[0]), keys[1..], proc)
                               else Under(t, keys[0]).(proc := proc))
            && at <= |t.kids| && |t.kids| <= |t'.kids| <= Max(|t.kids|, at + 1)
            && (forall j :: 0 <= j < |t.kids| && j != at ==> t'.kids[j] == t.kids[j])
            && (at < |t.kids| ==> t.kids[at].key == keys[0])
            && t'.proc == if t.kids == [] then None else t.proc
  {
    var i := Find(t.kids, keys[0]);
    at := if i.None? then |t.kids| else i.value;
    FindUnique(Bind(t, keys, proc).kids, keys[0], at);
  }

  lemma {:induction false} BoundIsFound(t: Tree, keys: Keys, proc: Proc)
    ensures ProcAt(Bind(t, keys, proc), keys) == proc
    decreases |keys|
  {
    var at := BindStep(t, keys, proc);
    if |keys| > 1 {
      BoundIsFound(Under(t, keys[0]), keys[1..], proc);
    }
  }

  /** Looking up under a child, made or found. */
  lemma UnderStep(t: Tree, q: Keys)
    ensures |q| == 1 ==> ProcAt(t, q) == Under(t, q[0]).proc
    ensures |q| > 1 ==> ProcAt(t, q) == ProcAt(Under(t, q[0]), q[1..])
                        && LeafAt(t, q) == LeafAt(Under(t, q[0]), q[1..])
  {
  }

  lemma SameKids(a: Tree, b: Tree, q: Keys)
    ensures a.kids == b.kids ==> ProcAt(a, q) == ProcAt(b, q)
  {
  }

  /** Binding one sequence changes no other, except that a leaf at a proper
      prefix of it loses its procedure. */
  lemma {:induction false} OthersUnchangedIff(t: Tree, keys: Keys, proc: Proc, q: Keys)
    requires q != keys
    ensures ProcAt(Bind(t, keys, proc), q) == if ProperPrefix(q, keys) && LeafAt(t, q) then None else ProcAt(t, q)
    decreases |keys|
  {
    hide Bind, Find;
    var t' := Bind(t, keys, proc);
    var at := BindStep(t, keys, proc);
    if q[0] != keys[0] {
      OtherKid(t, t', at, q[0]);
    } else if |q| == 1 {
      assert |keys| > 1 && ProperPrefix(q, keys);
      var b := BindStep(Under(t, keys[0]), keys[1..], proc);
      UnderStep(t, q);
    } else {
      UnderStep(t, q);
      UnderStep(t', q);
      assert Under(t', q[0]) == t'.kids[at];
      SameKids(Under(t, q[0]), Under(t', q[0]), q[1..]);
      if |keys| > 1 {
        TailPrefix(q, keys);
        OthersUnchangedIff(Under(t, keys[0]), keys[1..], proc, q[1..]);
      }
    }
  }

  lemma TailPrefix(q: Keys, keys: Keys)
    requires |q| > 1 && |keys| > 1 && q[0] == keys[0]
    ensures ProperPrefix(q, keys) <==> ProperPrefix(q[1..], keys[1..])
    ensures q != keys ==> q[1..] != keys[1..]
  {
    assert q == [q[0]] + q[1..] && keys == [keys[0]] + keys[1..];
  }

  lemma OtherKid(t: Tree, t': Tree, at: nat, key: nat)
    requires at <= |t.kids| && at < |t'.kids| && |t.kids| <= |t'.kids| <= Max(|t.kids|, at + 1)
    requires forall j :: 0 <= j < |t.kids| && j != at ==> t'.kids[j] == t.kids[j]
    requires t'.kids[at].key != key && (at < |t.kids| ==> t.kids[at].key != key)
    ensures Find(t'.kids, key) == Find(t.kids, key)
  {
    var r := Find(t.kids, key);
    if r.Some? {
      FindUnique(t'.kids, key, r.value);
    }
  }

  // ---------------------------------------------------------------------
  // Runs of bindings
  // ---------------------------------------------------------------------

  predicate Known(t: Tree, q: Keys) { Search(t, q).Some? }

  predicate Inner(t: Tree, q: Keys) { Known(t, q) && !LeafAt(t, q) }

  /** Binding makes a node for each prefix, and children for the proper ones. */
  lemma {:induction false} BindNodesIff(t: Tree, keys: Keys, proc: Proc, q: Keys)
    ensures Known(Bind(t, keys, proc), q) <==> Known(t, q) || q <= keys
    ensures Inner(Bind(t, keys, proc), q) <==> Inner(t, q) || q < keys
    decreases |keys|
  {
    hide Bind, Find;
    var t' := Bind(t, keys, proc);
    var at := BindStep(t, keys, proc);
    if q[0] != keys[0] {
      OtherKid(t, t', at, q[0]);
    } else if |q| == 1 {
      assert q <= keys && (q < keys <==> |keys| > 1);
      if |keys| > 1 {
        var b := BindStep(Under(t, keys[0]), keys[1..], proc);
      }
    } else {
      NodesUnder(t, q);
      NodesUnder(t', q);
      assert Under(t', q[0]) == t'.kids[at];
      if |keys| > 1 {
        assert q == [q[0]] + q[1..] && keys == [keys[0]] + keys[1..];
        BindNodesIff(Under(t, keys[0]), keys[1..], proc, q[1..]);
      }
    }
  }

  lemma NodesUnder(t: Tree, q: Keys)
    requires |q| > 1
    ensures Known(t, q) == Known(Under(t, q[0]), q[1..])
    ensures Inner(t, q) == Inner(Under(t, q[0]), q[1..])
  {
  }

  datatype KeyBinding = KeyBinding(keys: Keys, proc: Proc)

  /** The tree after a run of set-key commands on an empty one. */
  function Bound(bs: seq<KeyBinding>): Tree {
    if bs == [] then Node(0, None, [])
    else Bind(Bound(bs[..|bs| - 1]), bs[|bs| - 1].keys, bs[|bs| - 1].proc)
  }

  /** The i-th binding is the last one of q. */
  predicate LastOf(bs: seq<KeyBinding>, q: Keys, i: nat) {
    i < |bs| && bs[i].keys == q && forall k :: i < k < |bs| ==> bs[k].keys != q
  }

  /** One of the bindings from i on, and none before, is of a sequence that
      starts with q and goes on. */
  predicate FirstExtendedFrom(bs: seq<KeyBinding>, q: Keys, i: nat)
    requires i <= |bs|
  {
    && (forall k :: 0 <= k < i ==> !(q < bs[k].keys))
    && (exists k :: i <= k < |bs| && q < bs[k].keys)
  }

  lemma {:induction false} BoundNodesIff(bs: seq<KeyBinding>, q: Keys)
    ensures Known(Bound(bs), q) <==> exists i :: 0 <= i < |bs| && q <= bs[i].keys
    ensures Inner(Bound(bs), q) <==> exists i :: 0 <= i < |bs| && q < bs[i].keys
  {
    if bs != [] {
      var front, b := bs[..|bs| - 1], bs[|bs| - 1];
      BoundNodesIff(front, q);
      BindNodesIff(Bound(front), b.keys, b.proc, q);
      assert bs == front + [b];
    }
  }

  /** After any run of bindings a sequence has the procedure last given to it,
      unless it first became a prefix after that: then it has none. */
  lemma {:induction false} LastBindingWins(bs: seq<KeyBinding>, q: Keys, i: nat)
    requires LastOf(bs, q, i)
    ensures ProcAt(Bound(bs), q) == if FirstExtendedFrom(bs, q, i) then None else bs[i].proc
  {
    var front, b := bs[..|bs| - 1], bs[|bs| - 1];
    assert bs == front + [b];
    if i == |bs| - 1 {
      BoundIsFound(Bound(front), q, b.proc);
    } else {
      LastBindingWins(front, q, i);
      OthersUnchangedIff(Bound(front), b.keys, b.proc, q);
      BoundNodesIff(front, q);
      assert q <= front[i].keys;
    }
  }

  /** And a sequence that was never bound has none. */
  lemma {:induction false} NeverBound(bs: seq<KeyBinding>, q: Keys)
    requires forall i :: 0 <= i < |bs| ==> bs[i].keys != q
    ensures ProcAt(Bound(bs), q) == None
  {
    if bs != [] {
      var front, b := bs[..|bs| - 1], bs[|bs| - 1];
      NeverBound(front, q);
      OthersUnchangedIff(Bound(front), b.keys, b.proc, q);
    }
  }

  // ---------------------------------------------------------------------
  // Siblings
  // ---------------------------------------------------------------------

  predicate DistinctKids(kids: seq<Tree>) {
    forall i, j :: 0 <= i < j < |kids| ==> kids[i].key != kids[j].key
  }

  /** No node has two children for the same key. */
  predicate Unique(t: Tree) {
    DistinctKids(t.kids) && forall i :: 0 <= i < |t.kids| ==> Unique(t.kids[i])
  }

  lemma {:induction false} BindKeepsUnique(t: Tree, keys: Keys, proc: Proc)
    requires Unique(t)
    ensures Unique(Bind(t, keys, proc))
    decreases |keys|
  {
    var t' := Bind(t, keys, proc);
    var at := BindStep(t, keys, proc);
    var u := Under(t, keys[0]);
    assert Unique(u);
    if |keys| > 1 { BindKeepsUnique(u, keys[1..], proc); }
    assert Unique(t'.kids[at]);
    forall i | 0 <= i < |t'.kids|
      ensures Unique(t'.kids[i])
    {
      if i != at { assert Unique(t.kids[i]); }
    }
    forall j | 0 <= j < |t'.kids| && j != at
      ensures t'.kids[j].key != t'.kids[at].key
    {
      assert t'.kids[j] == t.kids[j];
    }
  }

  // ---------------------------------------------------------------------
  // Reading a key sequence
  // ---------------------------------------------------------------------

  /** The number of nodes on the longest path below a list of children. */
  function Height(kids: seq<Tree>): nat {
    if kids == [] then 0 else Max(1 + Height(kids[0].kids), Height(kids[1..]))
  }

  lemma {:induction false} KidHeight(kids: seq<Tree>, i: nat)
    requires i < |kids|
    ensures 1 + Height(kids[i].kids) <= Height(kids)
  {
    if i > 0 {
      KidHeight(kids[1..], i - 1);
    }
  }

  /** No key sequence longer than the tree is high leads anywhere. */
  lemma {:induction false} SearchWithinHeight(t: Tree, keys: Keys)
    ensures Search(t, keys).Some? ==> |keys| <= Height(t.kids)
    decreases |keys|
  {
    var i := Find(t.kids, keys[0]);
    if i.Some? {
      KidHeight(t.kids, i.value);
      if |keys| > 1 {
        SearchWithinHeight(t.kids[i.value], keys[1..]);
      }
    }
  }

  /** The first n keys of an endless keyboard. */
  function Typed(input: nat -> nat, n: nat): (ks: seq<nat>)
    ensures |ks| == n && forall i :: 0 <= i < n ==> ks[i] == input(i)
  {
    seq(n, (i: nat) => input(i))
  }

  /** The sequence leads to a node that has no procedure yet. */
  predicate Pending(t: Tree, keys: Keys) {
    Search(t, keys).Some? && ProcAt(t, keys).None?
  }

  // ---------------------------------------------------------------------
  // Walking the tree
  // ---------------------------------------------------------------------

  /** What walk_bindings_tree reports: for each child in turn, its binding, or
      else whatever lies below it. */
  function Walk(kids: seq<Tree>, pre: seq<nat>): seq<(seq<nat>, string)> {
    if kids == [] then []
    else
      var path := pre + [kids[0].key];
      (if kids[0].proc.Some? then [(path, kids[0].proc.value)] else Walk(kids[0].kids, path))
      + Walk(kids[1..], pre)
  }

  /** A bound sequence none of whose proper prefixes is bound. */
  predicate Visible(t: Tree, q: Keys, f: string) {
    ProcAt(t, q) == Some(f) && forall n :: 0 < n < |q| ==> ProcAt(t, q[..n]).None?
  }

  /** Everything reported lies properly below pre, through one of the kids. */
  predicate Below(entry: (seq<nat>, string), pre: seq<nat>, kids: seq<Tree>) {
    pre < entry.0 && Find(kids, entry.0[|pre|]).Some?
  }

  lemma {:induction false} WalkBelow(kids: seq<Tree>, pre: seq<nat>, entry: (seq<nat>, string))
    requires entry in Walk(kids, pre)
    ensures Below(entry, pre, kids)
  {
    var path := pre + [kids[0].key];
    if entry in Walk(kids[1..], pre) {
      WalkBelow(kids[1..], pre, entry);
    } else if kids[0].proc.None? {
      WalkBelow(kids[0].kids, path, entry);
      assert entry.0[|pre|] == path[|pre|];
    }
  }

  /** A root with these children. */
  function Root(kids: seq<Tree>): Tree { Node(0, None, kids) }

  /** The entries of the first child are the ones that start with its key. */
  lemma FirstKidOnly(kids: seq<Tree>, pre: seq<nat>, entry: (seq<nat>, string))
    requires kids != [] && Unique(Root(kids)) && |entry.0| > |pre|
    ensures entry in Walk(kids, pre) <==>
            if entry.0[|pre|] == kids[0].key then
              (if kids[0].proc.Some? then entry == (pre + [kids[0].key], kids[0].proc.value)
               else entry in Walk(kids[0].kids, pre + [kids[0].key]))
            else entry in Walk(kids[1..], pre)
  {
    var path := pre + [kids[0].key];
    if entry in Walk(kids[1..], pre) {
      WalkBelow(kids[1..], pre, entry);
    }
    if kids[0].proc.None? && entry in Walk(kids[0].kids, path) {
      WalkBelow(kids[0].kids, path, entry);
      assert entry.0[|pre|] == path[|pre|];
    }
  }

  lemma UniqueParts(kids: seq<Tree>)
    requires kids != [] && Unique(Root(kids))
    ensures Unique(Root(kids[1..])) && Unique(Root(kids[0].kids))
  {
    var k := kids[0];
    assert Unique(k);
  }

  /** The walk reports exactly the visible bindings below its prefix. */
  lemma {:induction false} WalkReportsIff(kids: seq<Tree>, pre: seq<nat>, q: Keys, f: string)
    requires Unique(Root(kids))
    ensures (pre + q, f) in Walk(kids, pre) <==> Visible(Root(kids), q, f)
  {
    if kids != [] {
      hide Walk, Visible, Unique;
      EntryAt(kids, pre, q, f);
      UniqueParts(kids);
      if q[0] != kids[0].key {
        WalkReportsIff(kids[1..], pre, q, f);
        VisibleElsewhere(kids, q, f);
      } else if |q| > 1 {
        VisibleUnder(kids, q, f);
        assert pre + q == (pre + [q[0]]) + q[1..];
        WalkReportsIff(kids[0].kids, pre + [q[0]], q[1..], f);
      } else {
        VisibleUnder(kids, q, f);
        assert [q[0]] == q;
      }
    }
  }

  /** Where the entry for q comes from. */
  lemma EntryAt(kids: seq<Tree>, pre: seq<nat>, q: Keys, f: string)
    requires kids != [] && Unique(Root(kids))
    ensures (pre + q, f) in Walk(kids, pre) <==>
            if q[0] != kids[0].key then (pre + q, f) in Walk(kids[1..], pre)
            else if |q| == 1 then kids[0].proc == Some(f)
            else kids[0].proc.None? && (pre + q, f) in Walk(kids[0].kids, pre + [q[0]])
  {
    hide Walk, Visible, Unique;
    FirstKidOnly(kids, pre, (pre + q, f));
    assert (pre + q)[|pre|] == q[0] && |pre + q| == |pre| + |q|;
    if q[0] == kids[0].key && |q| == 1 {
      assert [q[0]] == q;
      ShortNotBelow(kids, pre, q, f);
    }
  }

  lemma ShortNotBelow(kids: seq<Tree>, pre: seq<nat>, q: Keys, f: string)
    requires kids != [] && |q| == 1 && q[0] == kids[0].key
    ensures (pre + q, f) !in Walk(kids[0].kids, pre + [q[0]])
  {
    if (pre + q, f) in Walk(kids[0].kids, pre + [q[0]]) {
      WalkBelow(kids[0].kids, pre + [q[0]], (pre + q, f));
    }
  }

  lemma ProcElsewhere(kids: seq<Tree>, q: Keys)
    requires kids != [] && q[0] != kids[0].key
    ensures ProcAt(Root(kids), q) == ProcAt(Root(kids[1..]), q)
  {
  }

  lemma VisibleElsewhere(kids: seq<Tree>, q: Keys, f: string)
    requires kids != [] && q[0] != kids[0].key
    ensures Visible(Root(kids), q, f) <==> Visible(Root(kids[1..]), q, f)
  {
    ProcElsewhere(kids, q);
    forall n | 0 < n < |q|
      ensures ProcAt(Root(kids), q[..n]) == ProcAt(Root(kids[1..]), q[..n])
    {
      ProcElsewhere(kids, q[..n]);
    }
  }

  lemma ProcUnder(kids: seq<Tree>, q: Keys)
    requires kids != [] && q[0] == kids[0].key
    ensures ProcAt(Root(kids), q) == if |q| == 1 then kids[0].proc else ProcAt(Root(kids[0].kids), q[1..])
  {
    if |q| > 1 {
      SameKids(kids[0], Root(kids[0].kids), q[1..]);
    }
  }

  lemma VisibleUnder(kids: seq<Tree>, q: Keys, f: string)
    requires kids != [] && q[0] == kids[0].key
    ensures Visible(Root(kids), q, f) <==>
            if |q| == 1 then kids[0].proc == Some(f)
            else kids[0].proc.None? && Visible(Root(kids[0].kids), q[1..], f)
  {
    ProcUnder(kids, q);
    if |q| > 1 {
      ProcUnder(kids, q[..1]);
      forall m | 0 < m < |q| - 1
        ensures ProcAt(Root(kids), q[..m + 1]) == ProcAt(Root(kids[0].kids), q[1..][..m])
      {
        ProcUnder(kids, q[..m + 1]);
        assert q[..m + 1][1..] == q[1..][..m];
      }
      if kids[0].proc.None? && Visible(Root(kids[0].kids), q[1..], f) {
        forall n | 0 < n < |q|
          ensures ProcAt(Root(kids), q[..n]).None?
        {
          if n > 1 {
            assert ProcAt(Root(kids[0].kids), q[1..][..n - 1]).None?;
          }
        }
      }
    }
  }

  predicate NoPathTwice(w: seq<(seq<nat>, string)>) {
    forall i, j :: 0 <= i < j < |w| ==> w[i].0 != w[j].0
  }

  /** And reports each of them once. */
  lemma {:induction false} WalkReportsOnce(kids: seq<Tree>, pre: seq<nat>)
    requires Unique(Root(kids))
    ensures NoPathTwice(Walk(kids, pre))
  {
    if kids != [] {
      var path := pre + [kids[0].key];
      assert Unique(kids[0]);
      var a := if kids[0].proc.Some? then [(path, kids[0].proc.value)] else Walk(kids[0].kids, path);
      var b := Walk(kids[1..], pre);
      WalkReportsOnce(kids[1..], pre);
      if kids[0].proc.None? {
        WalkReportsOnce(kids[0].kids, path);
      }
      forall i, j | 0 <= i < |a| && 0 <= j < |b|
        ensures a[i].0 != b[j].0
      {
        WalkBelow(kids[1..], pre, b[j]);
        if kids[0].proc.None? {
          WalkBelow(kids[0].kids, path, a[i]);
        }
        assert a[i].0[|pre|] == path[|pre|];
      }
    }
  }
}
