/** The Huffman stage both entropy coders share: the tree built by repeatedly
    merging the two lightest nodes of a priority queue, and the code table read off
    the tree, `0` for a left branch and `1` for a right one.

    The queue compares nodes by frequency only, so the source leaves the order of
    equal frequencies to the heap's layout. The model pins it: among equal
    frequencies the node pushed first is popped first. */
module Huffman {
  import opened Common
  import opened Grouping

  datatype Tree<T> = Leaf(symbol: T, freq: nat) | Node(freq: nat, left: Tree<T>, right: Tree<T>)

  /** The symbols at the leaves, left to right. */
  function Leaves<T>(t: Tree<T>): seq<T>
  {
    match t
    case Leaf(s, _) => [s]
    case Node(_, l, r) => Leaves(l) + Leaves(r)
  }

  /** Every internal node weighs what its two children weigh together. */
  predicate WellWeighted<T>(t: Tree<T>)
  {
    match t
    case Leaf(_, _) => true
    case Node(f, l, r) => f == l.freq + r.freq && WellWeighted(l) && WellWeighted(r)
  }

  // ----- The priority queue

  /** A queued node and the number of pushes before it. */
  datatype Entry<T> = Entry(tree: Tree<T>, pushed: nat)

  /** `a` leaves the queue before `b`. */
  predicate Before<T>(a: Entry<T>, b: Entry<T>)
  {
    a.tree.freq < b.tree.freq || (a.tree.freq == b.tree.freq && a.pushed < b.pushed)
  }

  /** Where `heappop` takes its node from: no queued entry comes before it. */
  function MinIndex<T>(heap: seq<Entry<T>>): (i: nat)
    requires heap != []
    ensures i < |heap|
    ensures forall j | 0 <= j < |heap| :: !Before(heap[j], heap[i])
  {
    if |heap| == 1 then 0
    else
      var m := MinIndex(heap[..|heap| - 1]);
      if Before(heap[|heap| - 1], heap[m]) then |heap| - 1 else m
  }

  function Remove<T>(heap: seq<Entry<T>>, i: nat): (r: seq<Entry<T>>)
    requires i < |heap|
    ensures |r| == |heap| - 1
  {
    heap[..i] + heap[i + 1..]
  }

  /** The queue after pushing one leaf per `(symbol, frequency)` item, in order. */
  function Initial<T>(items: seq<(T, nat)>): (heap: seq<Entry<T>>)
    ensures |heap| == |items|
    ensures forall k | 0 <= k < |items| :: heap[k] == Entry(Leaf(items[k].0, items[k].1), k)
  {
    seq(|items|, k requires 0 <= k < |items| => Entry(Leaf(items[k].0, items[k].1), k))
  }

  /** Pop the entry at `a`, then the entry at `b` of what is left, and push their
      parent as push number `next`. */
  function Combine<T>(heap: seq<Entry<T>>, a: nat, b: nat, next: nat): (r: seq<Entry<T>>)
    requires a < |heap| && b < |heap| - 1
    ensures |r| == |heap| - 1
  {
    var rest := Remove(heap, a);
    var left := heap[a].tree;
    var right := rest[b].tree;
    Remove(rest, b) + [Entry(Node(left.freq + right.freq, left, right), next)]
  }

  lemma CombineIs<T>(heap: seq<Entry<T>>, a: nat, b: nat, next: nat)
    requires a < |heap| && b < |heap| - 1
    ensures var rest := Remove(heap, a);
            Combine(heap, a, b, next) ==
            Remove(rest, b) + [Entry(Node(heap[a].tree.freq + rest[b].tree.freq, heap[a].tree, rest[b].tree), next)]
  {
  }

  lemma InitialSnoc<T>(items: seq<(T, nat)>, i: nat)
    requires i < |items|
    ensures Initial(items[..i + 1]) == Initial(items[..i]) + [Entry(Leaf(items[i].0, items[i].1), i)]
  {
  }

  /** One round of the merge loop: pop the two lightest, push their parent. */
  function MergeStep<T>(heap: seq<Entry<T>>, next: nat): (r: seq<Entry<T>>)
    requires |heap| >= 2
    ensures |r| == |heap| - 1
  {
    var a := MinIndex(heap);
    Combine(heap, a, MinIndex(Remove(heap, a)), next)
  }

  /** The last node left in the queue; `next` numbers the next push. */
  function Merged<T>(heap: seq<Entry<T>>, next: nat): Tree<T>
    requires heap != []
    decreases |heap|
  {
    if |heap| == 1 then heap[0].tree else Merged(MergeStep(heap, next), next + 1)
  }

  /** The tree for a non-empty item list, pushes numbered from 0. */
  function HuffmanTree<T>(items: seq<(T, nat)>): Tree<T>
    requires items != []
  {
    Merged(Initial(items), |items|)
  }

  /** `build_huffman_tree`: push every item, then merge down to one node. */
  method BuildTree<T>(items: seq<(T, nat)>) returns (tree: Tree<T>)
    requires items != []
    ensures tree == HuffmanTree(items)
  {
    var heap := PushAll(items);
    tree := MergeAll(heap, |items|);
  }

  /** The push loop: one leaf per item, numbered by its position. */
  method PushAll<T>(items: seq<(T, nat)>) returns (heap: seq<Entry<T>>)
    ensures heap == Initial(items)
  {
    heap := [];
    var i := 0;
    while i < |items|
      invariant i <= |items|
      invariant heap == Initial(items[..i])
    {
      InitialSnoc(items, i);
      heap := heap + [Entry(Leaf(items[i].0, items[i].1), i)];
      i := i + 1;
    }
    assert items[..i] == items;
  }

  /** The merge loop: one round at a time until one node is left. */
  method MergeAll<T>(heap: seq<Entry<T>>, next: nat) returns (tree: Tree<T>)
    requires heap != []
    ensures tree == Merged(heap, next)
  {
    var queue := heap;
    var pushes := next;
    while |queue| > 1
      invariant queue != []
      invariant Merged(queue, pushes) == Merged(heap, next)
      decreases |queue|
    {
      queue := MergeOnce(queue, pushes);
      pushes := pushes + 1;
    }
    tree := queue[0].tree;
  }

  /** One round of the merge loop: pop the two lightest, push their parent. */
  method MergeOnce<T>(queue: seq<Entry<T>>, pushes: nat) returns (merged: seq<Entry<T>>)
    requires |queue| >= 2
    ensures merged == MergeStep(queue, pushes)
  {
    var a := MinIndex(queue);
    var left := queue[a].tree;
    var rest := Remove(queue, a);
    var b := MinIndex(rest);
    var right := rest[b].tree;
    merged := Remove(rest, b) + [Entry(Node(left.freq + right.freq, left, right), pushes)];
    CombineIs(queue, a, b, pushes);
  }

  // ----- What the merging keeps

  /** The leaves of every queued tree, queue order. */
  function QueuedLeaves<T>(heap: seq<Entry<T>>): seq<T>
  {
    if heap == [] then [] else QueuedLeaves(heap[..|heap| - 1]) + Leaves(heap[|heap| - 1].tree)
  }

  /** The frequencies of every queued tree added up. */
  function QueuedWeight<T>(heap: seq<Entry<T>>): nat
  {
    if heap == [] then 0 else QueuedWeight(heap[..|heap| - 1]) + heap[|heap| - 1].tree.freq
  }

  predicate AllWellWeighted<T>(heap: seq<Entry<T>>)
  {
    forall k | 0 <= k < |heap| :: WellWeighted(heap[k].tree)
  }

  lemma {:induction false} QueuedAppend<T>(a: seq<Entry<T>>, b: seq<Entry<T>>)
    ensures multiset(QueuedLeaves(a + b)) == multiset(QueuedLeaves(a)) + multiset(QueuedLeaves(b))
    ensures QueuedWeight(a + b) == QueuedWeight(a) + QueuedWeight(b)
    decreases |b|
  {
    if b == [] {
      assert a + b == a;
    } else {
      var n := |b| - 1;
      assert (a + b)[..|a + b| - 1] == a + b[..n];
      QueuedAppend(a, b[..n]);
    }
  }

  lemma QueuedOne<T>(e: Entry<T>)
    ensures QueuedLeaves([e]) == Leaves(e.tree)
    ensures QueuedWeight([e]) == e.tree.freq
  {
    assert [e][..0] == [];
  }

  /** Popping an entry takes its leaves and its weight out of the queue. */
  lemma RemoveQueued<T>(heap: seq<Entry<T>>, i: nat)
    requires i < |heap|
    ensures multiset(QueuedLeaves(heap)) == multiset(QueuedLeaves(Remove(heap, i))) + multiset(Leaves(heap[i].tree))
    ensures QueuedWeight(heap) == QueuedWeight(Remove(heap, i)) + heap[i].tree.freq
  {
    SplitAt(heap, i);
    QueuedSplice(heap, Remove(heap, i), heap[..i], heap[i], heap[i + 1..]);
  }

  lemma SplitAt<T>(s: seq<T>, i: nat)
    requires i < |s|
    ensures s == s[..i] + ([s[i]] + s[i + 1..])
  {
  }

  lemma QueuedSplice<T>(whole: seq<Entry<T>>, rest: seq<Entry<T>>, front: seq<Entry<T>>, x: Entry<T>, back: seq<Entry<T>>)
    requires whole == front + ([x] + back) && rest == front + back
    ensures multiset(QueuedLeaves(whole)) == multiset(QueuedLeaves(rest)) + multiset(Leaves(x.tree))
    ensures QueuedWeight(whole) == QueuedWeight(rest) + x.tree.freq
  {
    QueuedAppend(front, [x] + back);
    QueuedAppend([x], back);
    QueuedAppend(front, back);
    QueuedOne(x);
    var mf, mx, mb := multiset(QueuedLeaves(front)), multiset(Leaves(x.tree)), multiset(QueuedLeaves(back));
    calc {
      multiset(QueuedLeaves(whole));
      mf + multiset(QueuedLeaves([x] + back));
      mf + (mx + mb);
      (mf + mb) + mx;
      multiset(QueuedLeaves(rest)) + mx;
    }
  }

  /** Pushing the parent of two popped entries keeps the queued leaves and weight. */
  lemma MergeKeeps<T>(heap: seq<Entry<T>>, a: nat, b: nat, next: nat)
    requires a < |heap| && b < |heap| - 1
    ensures multiset(QueuedLeaves(Combine(heap, a, b, next))) == multiset(QueuedLeaves(heap))
    ensures QueuedWeight(Combine(heap, a, b, next)) == QueuedWeight(heap)
  {
    var rest := Remove(heap, a);
    var left := heap[a].tree;
    var right := rest[b].tree;
    var parent := Entry(Node(left.freq + right.freq, left, right), next);
    var rest2 := Remove(rest, b);
    CombineIs(heap, a, b, next);
    RemoveQueued(heap, a);
    RemoveQueued(rest, b);
    QueuedAppend(rest2, [parent]);
    QueuedOne(parent);
    assert Leaves(parent.tree) == Leaves(left) + Leaves(right);
    var ml, mr, m2 := multiset(Leaves(left)), multiset(Leaves(right)), multiset(QueuedLeaves(rest2));
    calc {
      multiset(QueuedLeaves(rest2 + [parent]));
      m2 + multiset(Leaves(left) + Leaves(right));
      m2 + (ml + mr);
      (m2 + mr) + ml;
      multiset(QueuedLeaves(rest)) + ml;
      multiset(QueuedLeaves(heap));
    }
  }

  /** A merge round keeps the queued leaves and the queued weight. */
  lemma MergeStepKeeps<T>(heap: seq<Entry<T>>, next: nat)
    requires |heap| >= 2
    ensures multiset(QueuedLeaves(MergeStep(heap, next))) == multiset(QueuedLeaves(heap))
    ensures QueuedWeight(MergeStep(heap, next)) == QueuedWeight(heap)
  {
    var a := MinIndex(heap);
    MergeKeeps(heap, a, MinIndex(Remove(heap, a)), next);
  }

  lemma RemoveWellWeighted<T>(heap: seq<Entry<T>>, i: nat)
    requires i < |heap| && AllWellWeighted(heap)
    ensures AllWellWeighted(Remove(heap, i))
  {
    forall k | 0 <= k < |heap| - 1 ensures WellWeighted(Remove(heap, i)[k].tree) {
      if k < i { assert Remove(heap, i)[k] == heap[k]; } else { assert Remove(heap, i)[k] == heap[k + 1]; }
    }
  }

  /** A merge round builds only well-weighted nodes. */
  lemma MergeStepWeighted<T>(heap: seq<Entry<T>>, next: nat)
    requires |heap| >= 2 && AllWellWeighted(heap)
    ensures AllWellWeighted(MergeStep(heap, next))
  {
    var a := MinIndex(heap);
    var rest := Remove(heap, a);
    var b := MinIndex(rest);
    RemoveWellWeighted(heap, a);
    RemoveWellWeighted(rest, b);
    assert WellWeighted(heap[a].tree) && WellWeighted(rest[b].tree);
    var r := MergeStep(heap, next);
    forall k | 0 <= k < |r| ensures WellWeighted(r[k].tree) {
      if k < |r| - 1 {
        assert r[k] == Remove(rest, b)[k];
      }
    }
  }

  /** The finished tree holds every queued leaf once and weighs what the queue
      weighed; every internal node weighs the sum of its children. */
  lemma {:induction false} MergedKeeps<T>(heap: seq<Entry<T>>, next: nat)
    requires heap != []
    ensures multiset(Leaves(Merged(heap, next))) == multiset(QueuedLeaves(heap))
    ensures Merged(heap, next).freq == QueuedWeight(heap)
    ensures AllWellWeighted(heap) ==> WellWeighted(Merged(heap, next))
    decreases |heap|
  {
    if |heap| == 1 {
      assert heap == [heap[0]];
      QueuedOne(heap[0]);
    } else {
      MergeStepKeeps(heap, next);
      if AllWellWeighted(heap) {
        MergeStepWeighted(heap, next);
      }
      MergedKeeps(MergeStep(heap, next), next + 1);
    }
  }

  lemma {:induction false} InitialQueued<T>(items: seq<(T, nat)>)
    ensures QueuedLeaves(Initial(items)) == KeysOf(items)
    ensures AllWellWeighted(Initial(items))
    decreases |items|
  {
    if items != [] {
      var n := |items| - 1;
      assert Initial(items)[..n] == Initial(items[..n]);
      InitialQueued(items[..n]);
    }
  }

  lemma {:induction false} InitialWeight<T>(items: seq<(T, nat)>)
    ensures QueuedWeight(Initial(items)) == SumOver(KeysOf(items), MapOf(items))
    requires Distinct(KeysOf(items))
    decreases |items|
  {
    if items != [] {
      var n := |items| - 1;
      assert Initial(items)[..n] == Initial(items[..n]);
      assert KeysOf(items)[..n] == KeysOf(items[..n]);
      InitialWeight(items[..n]);
      assert items[n].0 !in KeysOf(items[..n]);
      SumOverOther(KeysOf(items[..n]), MapOf(items[..n]), items[n].0, items[n].1);
    }
  }

  /** The map of a list of pairs; later pairs win. */
  function MapOf<K, V>(items: seq<(K, V)>): map<K, V>
  {
    if items == [] then map[] else MapOf(items[..|items| - 1])[items[|items| - 1].0 := items[|items| - 1].1]
  }

  /** A multiset with no element twice comes from a list with no element twice. */
  lemma DistinctByMultiset<T>(xs: seq<T>, ys: seq<T>)
    requires Distinct(ys) && multiset(xs) == multiset(ys)
    ensures Distinct(xs)
  {
    forall i, j | 0 <= i < j < |xs| ensures xs[i] != xs[j] {
      if xs[i] == xs[j] {
        assert xs == xs[..i] + [xs[i]] + xs[i + 1..j] + [xs[j]] + xs[j + 1..];
        assert multiset(xs)[xs[i]] >= 2;
        DistinctOnce(ys, xs[i]);
      }
    }
  }

  lemma {:induction false} DistinctOnce<T>(ys: seq<T>, x: T)
    requires Distinct(ys)
    ensures multiset(ys)[x] <= 1
  {
    if ys != [] {
      var n := |ys| - 1;
      DistinctOnce(ys[..n], x);
      assert ys == ys[..n] + [ys[n]];
      if ys[n] == x {
        assert x !in ys[..n];
      }
    }
  }

  /** The tree for a list of items with distinct symbols has each symbol at exactly
      one leaf, and its root weighs the sum of the frequencies. */
  lemma HuffmanTreeSpec<T>(items: seq<(T, nat)>)
    requires items != [] && Distinct(KeysOf(items))
    ensures multiset(Leaves(HuffmanTree(items))) == multiset(KeysOf(items))
    ensures Distinct(Leaves(HuffmanTree(items)))
    ensures HuffmanTree(items).freq == SumOver(KeysOf(items), MapOf(items))
    ensures WellWeighted(HuffmanTree(items))
  {
    InitialQueued(items);
    InitialWeight(items);
    MergedKeeps(Initial(items), |items|);
    DistinctByMultiset(Leaves(HuffmanTree(items)), KeysOf(items));
  }

  // ----- `generate_huffman_codes`

  /** The code of a leaf reached by `path`: the root alone gets `0`. */
  function LeafCode(path: seq<Bit>): seq<Bit>
  {
    if path == [] then [0] else path
  }

  /** `(symbol, code)` for every leaf, left to right. */
  function Paths<T>(t: Tree<T>, prefix: seq<Bit>): seq<(T, seq<Bit>)>
  {
    match t
    case Leaf(s, _) => [(s, LeafCode(prefix))]
    case Node(_, l, r) => Paths(l, prefix + [0]) + Paths(r, prefix + [1])
  }

  /** The recursion into an accumulating dict: left subtree first. */
  function GenerateCodes<T>(t: Tree<T>, prefix: seq<Bit>, codes: Dict<T, seq<Bit>>): Dict<T, seq<Bit>>
  {
    match t
    case Leaf(s, _) => Put(codes, s, LeafCode(prefix))
    case Node(_, l, r) => GenerateCodes(r, prefix + [1], GenerateCodes(l, prefix + [0], codes))
  }

  /** `generate_huffman_codes(root)`: an absent tree gives the empty table. */
  function CodeTable<T>(root: Option<Tree<T>>): Dict<T, seq<Bit>>
  {
    if root.None? then Dict(map[], []) else GenerateCodes(root.value, [], Dict(map[], []))
  }

  lemma {:induction false} PutAllAppend<K, V>(d: Dict<K, V>, a: seq<(K, V)>, b: seq<(K, V)>)
    ensures PutAll(d, a + b) == PutAll(PutAll(d, a), b)
    decreases |b|
  {
    if b == [] {
      assert a + b == a;
    } else {
      var n := |b| - 1;
      assert a + b == (a + b[..n]) + [b[n]];
      PutAllSnoc(d, a + b[..n], b[n]);
      PutAllAppend(d, a, b[..n]);
      assert b == b[..n] + [b[n]];
      PutAllSnoc(PutAll(d, a), b[..n], b[n]);
    }
  }

  /** The accumulating recursion assigns the leaves' codes in leaf order. */
  lemma {:induction false} GenerateCodesSpec<T>(t: Tree<T>, prefix: seq<Bit>, codes: Dict<T, seq<Bit>>)
    ensures GenerateCodes(t, prefix, codes) == PutAll(codes, Paths(t, prefix))
  {
    match t
    case Leaf(s, _) =>
      PutAllSnoc(codes, [], (s, LeafCode(prefix)));
      assert [] + [(s, LeafCode(prefix))] == Paths(t, prefix);
    case Node(_, l, r) =>
      GenerateCodesSpec(l, prefix + [0], codes);
      GenerateCodesSpec(r, prefix + [1], GenerateCodes(l, prefix + [0], codes));
      PutAllAppend(codes, Paths(l, prefix + [0]), Paths(r, prefix + [1]));
  }

  /** No code is a prefix of another entry's code (so no two entries share one). */
  predicate PrefixFree<T>(entries: seq<(T, seq<Bit>)>)
  {
    forall i, j | 0 <= i < |entries| && 0 <= j < |entries| && i != j :: !(entries[i].1 <= entries[j].1)
  }

  /** Every code is non-empty and, below the root, extends the path to the subtree. */
  lemma {:induction false} PathsShape<T>(t: Tree<T>, prefix: seq<Bit>)
    ensures KeysOf(Paths(t, prefix)) == Leaves(t)
    ensures forall i | 0 <= i < |Paths(t, prefix)| :: |Paths(t, prefix)[i].1| > 0
    ensures prefix != [] ==> forall i | 0 <= i < |Paths(t, prefix)| :: prefix <= Paths(t, prefix)[i].1
    ensures t.Node? ==> forall i | 0 <= i < |Paths(t, prefix)| :: |Paths(t, prefix)[i].1| > |prefix|
  {
    match t
    case Leaf(_, _) =>
    case Node(_, l, r) =>
      PathsShape(l, prefix + [0]);
      PathsShape(r, prefix + [1]);
      var pl: seq<(T, seq<Bit>)> := Paths(l, prefix + [0]);
      var pr: seq<(T, seq<Bit>)> := Paths(r, prefix + [1]);
      var ps: seq<(T, seq<Bit>)> := pl + pr;
      forall i | 0 <= i < |ps| ensures prefix <= ps[i].1 && |ps[i].1| > |prefix| {
        if i >= |pl| { assert ps[i] == pr[i - |pl|]; }
        else { assert ps[i] == pl[i]; }
      }
  }

  /** The codes read off a tree are prefix-free. */
  lemma {:induction false} PathsPrefixFree<T>(t: Tree<T>, prefix: seq<Bit>)
    ensures PrefixFree(Paths(t, prefix))
  {
    match t
    case Leaf(_, _) =>
    case Node(_, l, r) =>
      PathsPrefixFree(l, prefix + [0]);
      PathsPrefixFree(r, prefix + [1]);
      PathsShape(l, prefix + [0]);
      PathsShape(r, prefix + [1]);
      var pl: seq<(T, seq<Bit>)> := Paths(l, prefix + [0]);
      var pr: seq<(T, seq<Bit>)> := Paths(r, prefix + [1]);
      var ps: seq<(T, seq<Bit>)> := pl + pr;
      forall i, j | 0 <= i < |ps| && 0 <= j < |ps| && i != j ensures !(ps[i].1 <= ps[j].1) {
        if i < |pl| && j < |pl| {
          assert ps[i] == pl[i] && ps[j] == pl[j];
        } else if i >= |pl| && j >= |pl| {
          assert ps[i] == pr[i - |pl|] && ps[j] == pr[j - |pl|];
        } else if i < |pl| {
          var a := ps[i].1;
          var b := ps[j].1;
          assert ps[i] == pl[i] && ps[j] == pr[j - |pl|];
          assert a[|prefix|] == (prefix + [0])[|prefix|] == 0;
          assert b[|prefix|] == (prefix + [1])[|prefix|] == 1;
        } else {
          var a := ps[i].1;
          var b := ps[j].1;
          assert ps[i] == pr[i - |pl|] && ps[j] == pl[j];
          assert a[|prefix|] == (prefix + [1])[|prefix|] == 1;
          assert b[|prefix|] == (prefix + [0])[|prefix|] == 0;
        }
      }
  }

  /** The code table of a tree whose leaves are distinct: one non-empty code per
      leaf, listed in leaf order, and no code a prefix of another's. */
  lemma CodeTableSpec<T>(t: Tree<T>)
    requires Distinct(Leaves(t))
    ensures var codes := CodeTable(Some(t));
            var paths := Paths(t, []);
            codes.order == Leaves(t) &&
            (forall s :: s in codes.members <==> s in Leaves(t)) &&
            (forall i | 0 <= i < |paths| :: paths[i].0 in codes.members && codes.members[paths[i].0] == paths[i].1 && |paths[i].1| > 0) &&
            PrefixFree(paths)
  {
    var paths := Paths(t, []);
    GenerateCodesSpec(t, [], Dict(map[], []));
    PathsShape(t, []);
    PathsPrefixFree(t, []);
    PutAllDistinct(Dict(map[], []), paths);
    PutAllKeys(Dict(map[], []), paths);
    assert [] + KeysOf(paths) == Leaves(t);
  }
}
