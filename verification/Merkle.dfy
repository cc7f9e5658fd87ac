/** The Merkle root of a block's transactions, for an arbitrary hash with digests of a fixed length. */
module Merkle {
  import opened Sorting

  type Hash = string -> string

  /** SHA-256 in hexadecimal has 64 characters. */
  const DIGEST: nat := 64

  ghost predicate FixedLength(h: Hash) { forall x :: |h(x)| == DIGEST }

  // ----- the loop

  /** An odd list gets a copy of its last entry. */
  function Padded<T>(list: seq<T>): (r: seq<T>)
    requires list != []
    ensures |r| % 2 == 0 && |list| <= |r| <= |list| + 1 && list <= r
    ensures |r| > |list| ==> r[|list|] == list[|list| - 1]
  {
    if |list| % 2 != 0 then list + [list[|list| - 1]] else list
  }

  function Pairs<S, T>(list: seq<S>, join: (S, S) -> T): seq<T>
    requires |list| % 2 == 0
  {
    seq(|list| / 2, i requires 0 <= i < |list| / 2 => join(list[2 * i], list[2 * i + 1]))
  }

  /** Halve the list until one entry is left. */
  function Fold<T>(list: seq<T>, join: (T, T) -> T): T
    requires list != []
    decreases |list|
  {
    if |list| == 1 then list[0] else Fold(Pairs(Padded(list), join), join)
  }

  function JoinHashes(h: Hash): (string, string) -> string { (a: string, b: string) => h(a + b) }

  function Leaves(h: Hash, data: seq<string>): seq<string> {
    seq(|data|, i requires 0 <= i < |data| => h(data[i]))
  }

  function Root(h: Hash, data: seq<string>): string {
    if data == [] then h("empty") else Fold(Leaves(h, data), JoinHashes(h))
  }

  lemma FoldStep<T>(list: seq<T>, join: (T, T) -> T)
    requires list != []
    ensures |list| == 1 ==> Fold(list, join) == list[0]
    ensures |list| > 1 ==> Fold(list, join) == Fold(Pairs(Padded(list), join), join)
  {
  }

  /** One round of the loop: hash the entries in pairs. */
  method Halve(h: Hash, hashes: seq<string>) returns (r: seq<string>)
    requires |hashes| % 2 == 0
    ensures r == Pairs(hashes, JoinHashes(h))
  {
    r := [];
    for i := 0 to |hashes| / 2
      invariant r == Pairs(hashes, JoinHashes(h))[..i]
    {
      r := r + [h(hashes[2 * i] + hashes[2 * i + 1])];
    }
  }

  function Serialized<T>(serialize: T -> string, txs: seq<T>): seq<string> {
    seq(|txs|, i requires 0 <= i < |txs| => serialize(txs[i]))
  }

  method HashLeaves<T>(h: Hash, serialize: T -> string, txs: seq<T>) returns (hashes: seq<string>)
    ensures hashes == Leaves(h, Serialized(serialize, txs))
  {
    hashes := [];
    for i := 0 to |txs|
      invariant hashes == Leaves(h, Serialized(serialize, txs))[..i]
    {
      hashes := hashes + [h(serialize(txs[i]))];
    }
  }

  /** The root of a transaction list is that of its serialisations. */
  method MerkleRoot<T>(h: Hash, serialize: T -> string, txs: seq<T>) returns (root: string)
    ensures root == Root(h, Serialized(serialize, txs))
  {
    hide Fold, Pairs, JoinHashes;
    if txs == [] {
      return h("empty");
    }
    var hashes := HashLeaves(h, serialize, txs);
    while |hashes| > 1
      invariant hashes != [] && Fold(hashes, JoinHashes(h)) == Root(h, Serialized(serialize, txs))
      decreases |hashes|
    {
      FoldStep(hashes, JoinHashes(h));
      PairsShorter(hashes, JoinHashes(h));
      if |hashes| % 2 != 0 {
        hashes := hashes + [hashes[|hashes| - 1]];
      }
      hashes := Halve(h, hashes);
    }
    FoldStep(hashes, JoinHashes(h));
    return hashes[0];
  }

  lemma PairsShorter<T>(list: seq<T>, join: (T, T) -> T)
    requires |list| > 1
    ensures 0 < |Pairs(Padded(list), join)| < |list|
  {
  }

  // ----- the tree behind a root

  datatype Tree = Leaf(data: string) | Node(left: Tree, right: Tree)

  function JoinTrees(): (Tree, Tree) -> Tree { (a: Tree, b: Tree) => Node(a, b) }

  /** The tree of the empty list is that of the text hashed for it. */
  function TreeOf(data: seq<string>): Tree {
    if data == [] then Leaf("empty") else Fold(LeafTrees(data), JoinTrees())
  }

  function LeafTrees(data: seq<string>): seq<Tree> {
    seq(|data|, i requires 0 <= i < |data| => Leaf(data[i]))
  }

  /** The text that is hashed at the top of a tree. */
  function Input(h: Hash, t: Tree): string {
    match t
    case Leaf(data) => data
    case Node(l, r) => h(Input(h, l)) + h(Input(h, r))
  }

  /** All the texts that are hashed for a tree. */
  function Inputs(h: Hash, t: Tree): set<string> {
    {Input(h, t)} + match t case Leaf(_) => {} case Node(l, r) => Inputs(h, l) + Inputs(h, r)
  }

  function MapAll<S, T>(list: seq<S>, f: S -> T): seq<T> {
    seq(|list|, i requires 0 <= i < |list| => f(list[i]))
  }

  ghost predicate Commutes<S(!new), T>(f: S -> T, join: (S, S) -> S, join': (T, T) -> T) {
    forall a, b :: f(join(a, b)) == join'(f(a), f(b))
  }

  /** Halving and mapping may be exchanged. */
  lemma {:induction false} FoldMaps<S(!new), T>(list: seq<S>, f: S -> T, join: (S, S) -> S, join': (T, T) -> T)
    requires list != [] && Commutes(f, join, join')
    ensures Fold(MapAll(list, f), join') == f(Fold(list, join))
    decreases |list|
  {
    hide Fold, Pairs, Commutes;
    FoldStep(list, join);
    FoldStep(MapAll(list, f), join');
    if |list| > 1 {
      PairsShorter(list, join);
      FoldMaps(Pairs(Padded(list), join), f, join, join');
      PairsMap(list, f, join, join');
    }
  }

  lemma PairsMap<S(!new), T>(list: seq<S>, f: S -> T, join: (S, S) -> S, join': (T, T) -> T)
    requires list != [] && Commutes(f, join, join')
    ensures MapAll(Pairs(Padded(list), join), f) == Pairs(Padded(MapAll(list, f)), join')
  {
    var next := Pairs(Padded(list), join);
    var mapped := Padded(MapAll(list, f));
    assert mapped == MapAll(Padded(list), f);
    forall i | 0 <= i < |next| ensures MapAll(next, f)[i] == Pairs(mapped, join')[i] {
      assert next[i] == join(Padded(list)[2 * i], Padded(list)[2 * i + 1]);
    }
  }

  /** The root is the hash of the tree, for every list. */
  lemma RootHashesTree(h: Hash, data: seq<string>)
    ensures Root(h, data) == h(Input(h, TreeOf(data)))
  {
    hide Fold;
    var digest := (t: Tree) => h(Input(h, t));
    if data != [] {
      forall a, b ensures digest(JoinTrees()(a, b)) == JoinHashes(h)(digest(a), digest(b)) {
        assert Input(h, Node(a, b)) == h(Input(h, a)) + h(Input(h, b));
      }
      FoldMaps(LeafTrees(data), digest, JoinTrees(), JoinHashes(h));
      forall i | 0 <= i < |data| ensures MapAll(LeafTrees(data), digest)[i] == Leaves(h, data)[i] {
        assert Input(h, Leaf(data[i])) == data[i];
      }
      assert MapAll(LeafTrees(data), digest) == Leaves(h, data);
    }
  }

  // ----- equal roots of different trees

  /** The text is two digests side by side. */
  ghost predicate DigestPair(h: Hash, x: string) { exists a, b :: x == h(a) + h(b) }

  /** Where a leaf of one tree stands against a node of the other, its text is no pair of digests. */
  ghost predicate Comparable(h: Hash, t: Tree, t': Tree) {
    match (t, t')
    case (Leaf(_), Leaf(_)) => true
    case (Node(l, r), Node(l', r')) => Comparable(h, l, l') && Comparable(h, r, r')
    case (Leaf(d), Node(_, _)) => !DigestPair(h, d)
    case (Node(_, _), Leaf(d)) => !DigestPair(h, d)
  }

  ghost predicate Collide(h: Hash, t: Tree, t': Tree) {
    exists x, y :: x in Inputs(h, t) && y in Inputs(h, t') && x != y && h(x) == h(y)
  }

  lemma {:induction false} TreesCollide(h: Hash, t: Tree, t': Tree)
    requires FixedLength(h) && Comparable(h, t, t') && t != t' && h(Input(h, t)) == h(Input(h, t'))
    ensures Collide(h, t, t')
  {
    var (x, y) := (Input(h, t), Input(h, t'));
    assert x in Inputs(h, t) && y in Inputs(h, t');
    assert t.Node? ==> DigestPair(h, x);
    assert t'.Node? ==> DigestPair(h, y);
    if x == y {
      match (t, t')
      case (Node(l, r), Node(l', r')) =>
        SplitLists(h(Input(h, l)), h(Input(h, r)), h(Input(h, l')), h(Input(h, r')));
        if l != l' { TreesCollide(h, l, l'); } else { TreesCollide(h, r, r'); }
      case _ =>
    }
  }

  lemma SplitLists<T>(a: seq<T>, b: seq<T>, a': seq<T>, b': seq<T>)
    requires |a| == |a'| && a + b == a' + b'
    ensures a == a' && b == b'
  {
    assert a == (a + b)[..|a|] && b == (a + b)[|a|..];
    assert a' == (a' + b')[..|a'|] && b' == (a' + b')[|a'|..];
  }

  // ----- lists of one length

  ghost predicate AllComparable(h: Hash, ts: seq<Tree>, ts': seq<Tree>) {
    |ts| == |ts'| && forall i :: 0 <= i < |ts| ==> Comparable(h, ts[i], ts'[i])
  }

  lemma {:induction false} FoldComparable(h: Hash, ts: seq<Tree>, ts': seq<Tree>)
    requires ts != [] && AllComparable(h, ts, ts')
    ensures Comparable(h, Fold(ts, JoinTrees()), Fold(ts', JoinTrees()))
    ensures Fold(ts, JoinTrees()) == Fold(ts', JoinTrees()) ==> ts == ts'
    decreases |ts|
  {
    if |ts| == 1 {
      assert ts == [ts[0]] && ts' == [ts'[0]];
    } else {
      var (next, next') := (Pairs(Padded(ts), JoinTrees()), Pairs(Padded(ts'), JoinTrees()));
      assert AllComparable(h, Padded(ts), Padded(ts'));
      assert AllComparable(h, next, next');
      FoldComparable(h, next, next');
      if next == next' { PairsInjective(ts, ts'); }
    }
  }

  lemma PairsInjective(ts: seq<Tree>, ts': seq<Tree>)
    requires ts != [] && ts' != [] && Pairs(Padded(ts), JoinTrees()) == Pairs(Padded(ts'), JoinTrees())
    ensures Padded(ts) == Padded(ts') && (|ts| == |ts'| ==> ts == ts')
  {
    var (p, p') := (Padded(ts), Padded(ts'));
    assert |Pairs(p, JoinTrees())| == |p| / 2 && |Pairs(p', JoinTrees())| == |p'| / 2;
    forall i | 0 <= i < |p| ensures p[i] == p'[i] {
      assert Pairs(p, JoinTrees())[i / 2] == Node(p[i / 2 * 2], p[i / 2 * 2 + 1]);
      assert Pairs(p', JoinTrees())[i / 2] == Node(p'[i / 2 * 2], p'[i / 2 * 2 + 1]);
    }
    if |ts| == |ts'| {
      assert ts == p[..|ts|] && ts' == p'[..|ts'|];
    }
  }

  /** Different lists of one length with the same root: two different texts among those hashed have
      the same digest. */
  lemma EqualRootsCollide(h: Hash, xs: seq<string>, ys: seq<string>)
    requires FixedLength(h) && |xs| == |ys| && xs != [] && xs != ys && Root(h, xs) == Root(h, ys)
    ensures Collide(h, TreeOf(xs), TreeOf(ys))
  {
    hide Fold;
    RootHashesTree(h, xs);
    RootHashesTree(h, ys);
    FoldComparable(h, LeafTrees(xs), LeafTrees(ys));
    var i :| 0 <= i < |xs| && xs[i] != ys[i];
    assert LeafTrees(xs)[i] != LeafTrees(ys)[i];
    TreesCollide(h, TreeOf(xs), TreeOf(ys));
  }

  // ----- lists of any length

  /** All leaves at one depth. */
  predicate Perfect(t: Tree, d: nat) {
    match t case Leaf(_) => d == 0 case Node(l, r) => d > 0 && Perfect(l, d - 1) && Perfect(r, d - 1)
  }

  function Depth(t: Tree): nat {
    match t case Leaf(_) => 0 case Node(l, _) => 1 + Depth(l)
  }

  ghost predicate AllDeep(ts: seq<Tree>, d: nat) { forall i :: 0 <= i < |ts| ==> Perfect(ts[i], d) }

  lemma {:induction false} FoldDepth(ts: seq<Tree>, d: nat)
    requires ts != [] && AllDeep(ts, d)
    ensures var t := Fold(ts, JoinTrees());
            Perfect(t, Depth(t)) && Depth(t) >= d && (|ts| > 1 ==> Depth(t) > d)
    decreases |ts|
  {
    if |ts| > 1 {
      PairsDeep(ts, d);
      FoldDepth(Pairs(Padded(ts), JoinTrees()), d + 1);
    } else {
      PerfectDepth(ts[0], d);
    }
  }

  lemma {:induction false} PerfectDepth(t: Tree, d: nat)
    requires Perfect(t, d)
    ensures Depth(t) == d
  {
    if t.Node? { PerfectDepth(t.left, d - 1); }
  }

  lemma PairsDeep(ts: seq<Tree>, d: nat)
    requires ts != [] && AllDeep(ts, d)
    ensures AllDeep(Pairs(Padded(ts), JoinTrees()), d + 1)
  {
    assert AllDeep(Padded(ts), d);
  }

  lemma PairsDistinct(ts: seq<Tree>)
    requires ts != [] && NoRepeats(ts)
    ensures NoRepeats(Pairs(Padded(ts), JoinTrees()))
  {
    var p := Padded(ts);
    var next := Pairs(p, JoinTrees());
    forall i, j | 0 <= i < j < |next| ensures next[i] != next[j] {
      assert next[i].left == ts[2 * i] && next[j].left == ts[2 * j];
    }
  }

  /** Without repeats the tree determines the list, whatever the lengths. */
  lemma {:induction false} FoldInjective(ts: seq<Tree>, ts': seq<Tree>, d: nat)
    requires ts != [] && ts' != [] && AllDeep(ts, d) && AllDeep(ts', d) && NoRepeats(ts) && NoRepeats(ts')
    requires Fold(ts, JoinTrees()) == Fold(ts', JoinTrees())
    ensures ts == ts'
    decreases |ts|
  {
    hide Fold, Pairs, JoinTrees, Depth, Perfect;
    FoldStep(ts, JoinTrees());
    FoldStep(ts', JoinTrees());
    if |ts| == 1 || |ts'| == 1 {
      FoldDepth(ts, d);
      FoldDepth(ts', d);
      PerfectDepth(ts[0], d);
      PerfectDepth(ts'[0], d);
      assert |ts| == |ts'| == 1;
    } else {
      PairsDeep(ts, d);
      PairsDeep(ts', d);
      PairsDistinct(ts);
      PairsDistinct(ts');
      PairsShorter(ts, JoinTrees());
      PairsShorter(ts', JoinTrees());
      FoldInjective(Pairs(Padded(ts), JoinTrees()), Pairs(Padded(ts'), JoinTrees()), d + 1);
      PairsInjective(ts, ts');
      PaddingRepeats(ts, ts');
      PaddingRepeats(ts', ts);
    }
  }

  lemma PaddingRepeats(ts: seq<Tree>, ts': seq<Tree>)
    requires ts != [] && ts' != [] && Padded(ts) == Padded(ts') && NoRepeats(ts')
    ensures |ts| >= |ts'|
  {
    var p := Padded(ts);
    assert |p| > |ts| ==> p[|ts|] == p[|ts| - 1];
    assert forall i :: 0 <= i < |ts'| ==> ts'[i] == p[i];
  }

  // ----- the list with all its padding written out

  function JoinLists(): (seq<string>, seq<string>) -> seq<string> { (a: seq<string>, b: seq<string>) => a + b }

  /** Every entry that is hashed as a leaf, as often as the padding makes it stand there. */
  function Full(data: seq<string>): seq<string> {
    if data == [] then ["empty"] else Fold(MapAll(data, x => [x]), JoinLists())
  }

  /** The leaves of a tree from left to right. */
  function Frontier(t: Tree): seq<string> {
    match t case Leaf(d) => [d] case Node(l, r) => Frontier(l) + Frontier(r)
  }

  lemma FullIsFrontier(data: seq<string>)
    ensures Full(data) == Frontier(TreeOf(data))
  {
    hide Fold;
    var leaves := (t: Tree) => Frontier(t);
    if data != [] {
      assert Commutes(leaves, JoinTrees(), JoinLists());
      FoldMaps(LeafTrees(data), leaves, JoinTrees(), JoinLists());
      assert MapAll(LeafTrees(data), leaves) == MapAll(data, x => [x]);
    }
  }

  function Power(d: nat): (p: nat)
    ensures p >= 1
  {
    if d == 0 then 1 else 2 * Power(d - 1)
  }

  lemma {:induction false} PowerGrows(d: nat, e: nat)
    requires d < e
    ensures Power(d) < Power(e)
  {
    if d > 0 { PowerGrows(d - 1, e - 1); } else if e > 1 { PowerGrows(0, e - 1); }
  }

  lemma {:induction false} FrontierSize(t: Tree, d: nat)
    requires Perfect(t, d)
    ensures |Frontier(t)| == Power(d)
  {
    if t.Node? {
      FrontierSize(t.left, d - 1);
      FrontierSize(t.right, d - 1);
    }
  }

  lemma {:induction false} FrontierInjective(t: Tree, t': Tree, d: nat)
    requires Perfect(t, d) && Perfect(t', d) && Frontier(t) == Frontier(t')
    ensures t == t'
  {
    if d == 0 {
      assert t.data == Frontier(t)[0] && t'.data == Frontier(t')[0];
    } else {
      FrontierSize(t.left, d - 1);
      FrontierSize(t'.left, d - 1);
      SplitLists(Frontier(t.left), Frontier(t.right), Frontier(t'.left), Frontier(t'.right));
      FrontierInjective(t.left, t'.left, d - 1);
      FrontierInjective(t.right, t'.right, d - 1);
    }
  }

  lemma TreePerfect(data: seq<string>)
    ensures Perfect(TreeOf(data), Depth(TreeOf(data)))
  {
    hide Fold;
    if data != [] { FoldDepth(LeafTrees(data), 0); }
  }

  /** Two lists have one tree exactly when they are the same with their padding written out. */
  lemma TreesEqualExactlyWhenFull(xs: seq<string>, ys: seq<string>)
    ensures TreeOf(xs) == TreeOf(ys) <==> Full(xs) == Full(ys)
  {
    hide TreeOf, Full, Perfect, Depth, Frontier;
    var (t, t') := (TreeOf(xs), TreeOf(ys));
    FullIsFrontier(xs);
    FullIsFrontier(ys);
    TreePerfect(xs);
    TreePerfect(ys);
    FrontierSize(t, Depth(t));
    FrontierSize(t', Depth(t'));
    if Full(xs) == Full(ys) {
      if Depth(t) < Depth(t') { PowerGrows(Depth(t), Depth(t')); }
      if Depth(t') < Depth(t) { PowerGrows(Depth(t'), Depth(t)); }
      FrontierInjective(t, t', Depth(t));
    }
  }

  // ----- when roots agree

  ghost predicate NoDigestPair(h: Hash, data: seq<string>) { forall x :: x in data ==> !DigestPair(h, x) }

  lemma {:induction false} FrontierComparable(h: Hash, t: Tree, t': Tree)
    requires NoDigestPair(h, Frontier(t)) && NoDigestPair(h, Frontier(t'))
    ensures Comparable(h, t, t')
  {
    hide DigestPair;
    match (t, t')
    case (Node(l, r), Node(l', r')) =>
      FrontierComparable(h, l, l');
      FrontierComparable(h, r, r');
    case (Leaf(d), _) => assert d in Frontier(t);
    case (_, Leaf(d)) => assert d in Frontier(t');
  }

  lemma {:induction false} FoldMembers(lists: seq<seq<string>>, x: string)
    requires lists != [] && x in Fold(lists, JoinLists())
    ensures exists i :: 0 <= i < |lists| && x in lists[i]
    decreases |lists|
  {
    hide Fold;
    FoldStep(lists, JoinLists());
    if |lists| > 1 {
      var next := Pairs(Padded(lists), JoinLists());
      FoldMembers(next, x);
      var i :| 0 <= i < |next| && x in next[i];
      assert next[i] == Padded(lists)[2 * i] + Padded(lists)[2 * i + 1];
    } else {
      assert x in lists[0];
    }
  }

  /** Padding only repeats entries. */
  lemma FullMembers(data: seq<string>, x: string)
    requires data != [] && x in Full(data)
    ensures x in data
  {
    hide Fold;
    FoldMembers(MapAll(data, y => [y]), x);
  }

  /** The texts that stand as leaves: the entries, or the text hashed for no entries. */
  ghost predicate Plain(h: Hash, data: seq<string>) {
    if data == [] then !DigestPair(h, "empty") else NoDigestPair(h, data)
  }

  lemma PlainFrontier(h: Hash, data: seq<string>)
    requires Plain(h, data)
    ensures NoDigestPair(h, Frontier(TreeOf(data)))
  {
    hide Full, TreeOf, DigestPair;
    FullIsFrontier(data);
    if data == [] {
      assert Full(data) == ["empty"] by { FullOfNone(); }
    } else {
      forall x | x in Full(data) ensures x in data { FullMembers(data, x); }
    }
  }

  lemma FullOfNone()
    ensures Full([]) == ["empty"]
  {
  }

  /** Lists of any lengths, none of whose entries is a pair of digests, have one root exactly when they are
      the same with their padding written out; unless two different texts among those hashed have the
      same digest. */
  lemma RootsAgreeExactlyWhenFull(h: Hash, xs: seq<string>, ys: seq<string>)
    requires FixedLength(h) && Plain(h, xs) && Plain(h, ys) && !Collide(h, TreeOf(xs), TreeOf(ys))
    ensures Root(h, xs) == Root(h, ys) <==> Full(xs) == Full(ys)
  {
    hide TreeOf, Full, Plain, Root, Collide;
    RootHashesTree(h, xs);
    RootHashesTree(h, ys);
    TreesEqualExactlyWhenFull(xs, ys);
    PlainFrontier(h, xs);
    PlainFrontier(h, ys);
    FrontierComparable(h, TreeOf(xs), TreeOf(ys));
    if Root(h, xs) == Root(h, ys) && TreeOf(xs) != TreeOf(ys) {
      TreesCollide(h, TreeOf(xs), TreeOf(ys));
    }
  }

  /** Serialised objects start with a brace, and digests do not. */
  lemma ObjectsArePlain(h: Hash, data: seq<string>)
    requires FixedLength(h) && (forall x :: h(x)[0] != '{') && data != []
    requires forall x :: x in data ==> x != [] && x[0] == '{'
    ensures Plain(h, data)
  {
    forall x | x in data ensures !DigestPair(h, x) {
      forall a, b ensures x != h(a) + h(b) {
        assert (h(a) + h(b))[0] == h(a)[0];
      }
    }
  }

  /** Without repeats the root determines the list, unless two different texts among those hashed have
      the same digest. */
  lemma RootDeterminesList(h: Hash, xs: seq<string>, ys: seq<string>)
    requires FixedLength(h) && xs != [] && ys != [] && NoRepeats(xs) && NoRepeats(ys)
    requires Plain(h, xs) && Plain(h, ys) && !Collide(h, TreeOf(xs), TreeOf(ys))
    ensures Root(h, xs) == Root(h, ys) <==> xs == ys
  {
    hide Fold, Full, Plain, Root, Collide, TreeOf;
    RootsAgreeExactlyWhenFull(h, xs, ys);
    TreesEqualExactlyWhenFull(xs, ys);
    if TreeOf(xs) == TreeOf(ys) { ListsEqual(xs, ys); }
  }

  lemma ListsEqual(xs: seq<string>, ys: seq<string>)
    requires xs != [] && ys != [] && NoRepeats(xs) && NoRepeats(ys) && TreeOf(xs) == TreeOf(ys)
    ensures xs == ys
  {
    hide Fold;
    FoldInjective(LeafTrees(xs), LeafTrees(ys), 0);
    assert |xs| == |LeafTrees(xs)| == |LeafTrees(ys)| == |ys|;
    forall i | 0 <= i < |xs| ensures xs[i] == ys[i] {
      assert LeafTrees(xs)[i] == LeafTrees(ys)[i];
    }
  }

  // ----- where it fails

  /** The subtrees k levels down. */
  function Slice(t: Tree, k: nat): seq<Tree> {
    if k == 0 || t.Leaf? then [t] else Slice(t.left, k - 1) + Slice(t.right, k - 1)
  }

  lemma {:induction false} SliceSize(t: Tree, d: nat, k: nat)
    requires Perfect(t, d) && k <= d
    ensures |Slice(t, k)| == Power(k)
    ensures k == d ==> Slice(t, k) == LeafTrees(Frontier(t))
  {
    if k > 0 {
      SliceSize(t.left, d - 1, k - 1);
      SliceSize(t.right, d - 1, k - 1);
    }
  }

  lemma {:induction false} SlicePairs(t: Tree, d: nat, k: nat)
    requires Perfect(t, d) && 1 <= k <= d
    ensures |Slice(t, k)| % 2 == 0 && Pairs(Slice(t, k), JoinTrees()) == Slice(t, k - 1)
  {
    hide Power;
    SliceEven(t, d, k);
    if k > 1 {
      SlicePairs(t.left, d - 1, k - 1);
      SlicePairs(t.right, d - 1, k - 1);
      PairsConcat(Slice(t.left, k - 1), Slice(t.right, k - 1));
    } else {
      assert Slice(t, 1) == [t.left, t.right];
      assert Pairs(Slice(t, 1), JoinTrees()) == [t];
    }
  }

  lemma SliceEven(t: Tree, d: nat, k: nat)
    requires Perfect(t, d) && 1 <= k <= d
    ensures |Slice(t, k)| % 2 == 0
  {
    hide Slice, Perfect;
    SliceSize(t, d, k);
    assert Power(k) == 2 * Power(k - 1);
  }

  lemma PairsConcat(a: seq<Tree>, b: seq<Tree>)
    requires |a| % 2 == 0 && |b| % 2 == 0
    ensures Pairs(a + b, JoinTrees()) == Pairs(a, JoinTrees()) + Pairs(b, JoinTrees())
  {
    var p := Pairs(a + b, JoinTrees());
    forall i | 0 <= i < |p| ensures p[i] == (Pairs(a, JoinTrees()) + Pairs(b, JoinTrees()))[i] {
      assert p[i] == Node((a + b)[2 * i], (a + b)[2 * i + 1]);
      if i >= |a| / 2 {
        assert (a + b)[2 * i] == b[2 * (i - |a| / 2)] && (a + b)[2 * i + 1] == b[2 * (i - |a| / 2) + 1];
      }
    }
  }

  lemma {:induction false} FoldSlice(t: Tree, d: nat, k: nat)
    requires Perfect(t, d) && k <= d
    ensures Slice(t, k) != [] && Fold(Slice(t, k), JoinTrees()) == t
  {
    hide Fold, Pairs, Slice;
    SliceSize(t, d, k);
    FoldStep(Slice(t, k), JoinTrees());
    if k > 0 {
      SlicePairs(t, d, k);
      assert Padded(Slice(t, k)) == Slice(t, k);
      FoldSlice(t, d, k - 1);
    } else {
      assert Slice(t, 0) == [t] by { SliceTop(t); }
    }
  }

  lemma SliceTop(t: Tree)
    ensures Slice(t, 0) == [t]
  {
  }

  function Flat(lists: seq<seq<string>>): seq<string> {
    if lists == [] then [] else Flat(lists[..|lists| - 1]) + lists[|lists| - 1]
  }

  lemma {:induction false} FlatPairs(lists: seq<seq<string>>)
    requires |lists| % 2 == 0
    ensures Flat(Pairs(lists, JoinLists())) == Flat(lists)
  {
    var (n, pairs) := (|lists|, Pairs(lists, JoinLists()));
    if n > 0 {
      assert pairs[..|pairs| - 1] == Pairs(lists[..n - 2], JoinLists());
      assert pairs[|pairs| - 1] == lists[n - 2] + lists[n - 1];
      FlatPairs(lists[..n - 2]);
      assert lists[..n - 1][..n - 2] == lists[..n - 2];
      assert Flat(lists) == Flat(lists[..n - 2]) + lists[n - 2] + lists[n - 1];
    }
  }

  lemma {:induction false} FlatStartsFold(lists: seq<seq<string>>)
    requires lists != []
    ensures Flat(lists) <= Fold(lists, JoinLists())
    decreases |lists|
  {
    hide Fold, Pairs, JoinLists;
    FoldStep(lists, JoinLists());
    if |lists| > 1 {
      PairsShorter(lists, JoinLists());
      FlatStartsFold(Pairs(Padded(lists), JoinLists()));
      FlatPairs(Padded(lists));
      FlatPadded(lists);
    } else {
      assert Flat(lists) == Flat([]) + lists[0];
    }
  }

  lemma FlatPadded(lists: seq<seq<string>>)
    requires lists != []
    ensures Flat(lists) <= Flat(Padded(lists))
  {
    var p := Padded(lists);
    if |p| > |lists| { assert p[..|p| - 1] == lists; }
  }

  lemma {:induction false} FlatSingletons(xs: seq<string>)
    ensures Flat(MapAll(xs, x => [x])) == xs
  {
    if xs != [] {
      var (n, lists) := (|xs| - 1, MapAll(xs, x => [x]));
      assert lists[..n] == MapAll(xs[..n], x => [x]);
      FlatSingletons(xs[..n]);
      assert xs == xs[..n] + [xs[n]];
    }
  }

  /** Writing the padding out goes on with the list and never changes the root. */
  lemma FullKeepsRoot(h: Hash, xs: seq<string>)
    requires xs != []
    ensures Full(Full(xs)) == Full(xs) && Root(h, Full(xs)) == Root(h, xs)
    ensures xs <= Full(xs) && |Full(xs)| == Power(Depth(TreeOf(xs)))
  {
    hide Root, Perfect, Depth, Frontier, Slice, Fold;
    var t := TreeOf(xs);
    FullIsFrontier(xs);
    TreePerfect(xs);
    FrontierSize(t, Depth(t));
    SliceSize(t, Depth(t), Depth(t));
    FoldSlice(t, Depth(t), Depth(t));
    assert Full(xs) != [] && TreeOf(Full(xs)) == t;
    TreesEqualExactlyWhenFull(Full(xs), xs);
    RootHashesTree(h, xs);
    RootHashesTree(h, Full(xs));
    FlatStartsFold(MapAll(xs, x => [x]));
    FlatSingletons(xs);
  }

  /** So a list whose length is no power of two shares its root with a longer one. */
  lemma LongerListWithRoot(h: Hash, xs: seq<string>) returns (ys: seq<string>)
    requires xs != [] && forall d :: |xs| != Power(d)
    ensures |ys| > |xs| && Root(h, ys) == Root(h, xs)
  {
    hide Root, Full, Depth, Power;
    FullKeepsRoot(h, xs);
    ys := Full(xs);
  }

  /** So does a copy of the last entry of an odd list, save a singleton. */
  lemma CopyOfLastKeepsRoot(h: Hash, xs: seq<string>)
    requires |xs| % 2 == 1 && |xs| >= 3
    ensures Root(h, xs + [xs[|xs| - 1]]) == Root(h, xs)
  {
    var ys := xs + [xs[|xs| - 1]];
    assert Padded(Leaves(h, xs)) == Padded(Leaves(h, ys)) == Leaves(h, ys);
  }

  /** An entry that is a pair of digests has the root of the two entries digested. */
  lemma DigestPairFails(h: Hash, a: string, b: string)
    ensures Root(h, [h(a) + h(b)]) == Root(h, [a, b]) && Full([h(a) + h(b)]) != Full([a, b])
  {
    hide Fold;
    var (one, two) := ([h(a) + h(b)], [a, b]);
    FoldStep(Leaves(h, one), JoinHashes(h));
    FoldStep(Leaves(h, two), JoinHashes(h));
    var next := Pairs(Padded(Leaves(h, two)), JoinHashes(h));
    assert next == [h(h(a) + h(b))];
    FoldStep(next, JoinHashes(h));
    assert Leaves(h, one) == [h(h(a) + h(b))];
    FullPair(a, b);
    FullOne(h(a) + h(b));
  }

  lemma FullPair(a: string, b: string)
    ensures Full([a, b]) == [a, b]
  {
    hide Fold;
    var lists := MapAll([a, b], x => [x]);
    assert lists == [[a], [b]];
    FoldStep(lists, JoinLists());
    var next := Pairs(Padded(lists), JoinLists());
    assert |next| == 1 && next[0] == [a] + [b] == [a, b];
    assert next == [[a, b]];
    FoldStep([[a, b]], JoinLists());
  }

  lemma FullOne(a: string)
    ensures Full([a]) == [a]
  {
    assert MapAll([a], x => [x]) == [[a]];
  }
}
