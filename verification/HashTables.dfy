/**
 The chained hash table: bucket array, nodes linked in place, and the map it stands for.
 */
module HashTables {
  import opened Lists
  import opened NumberTexts
  import opened Primes
  import opened Text

  type Key = seq<Byte>

  /* unsigned long has 64 bits. */
  const ULONG := 0x1_0000_0000_0000_0000

  /** The string hash: a polynomial in 37, modulo the width of unsigned long. */
  function Hash(key: Key): (h: nat)
    ensures h < ULONG
  {
    if key == [] then 0 else (Hash(key[..|key| - 1]) * 37 + key[|key| - 1]) % ULONG
  }

  lemma {:induction false} PositionalSnoc(digits: seq<nat>, d: nat, base: nat)
    ensures Positional(digits + [d], base) == Positional(digits, base) * base + d
    decreases |digits|
  {
    if digits == [] {
      assert ([] + [d])[1..] == [] && [] + [d] == [d];
    } else {
      assert (digits + [d])[1..] == digits[1..] + [d];
      PositionalSnoc(digits[1..], d, base);
      Regroup2(digits[0], Power(base, |digits| - 1), Positional(digits[1..], base), base, d);
    }
  }

  lemma Regroup2(a: nat, power: nat, rest: nat, base: nat, d: nat)
    ensures a * (base * power) + (rest * base + d) == (a * power + rest) * base + d
  {
  }

  lemma ModMul(h: nat, c: nat)
    ensures (h % ULONG * 37 + c) % ULONG == (h * 37 + c) % ULONG
  {
    var q := h / ULONG;
    assert h * 37 + c == (h % ULONG * 37 + c) + q * 37 * ULONG;
    ModPlus(h % ULONG * 37 + c, q * 37);
  }

  lemma ModPlus(a: nat, q: nat)
    ensures (a + q * ULONG) % ULONG == a % ULONG
  {
  }

  /** The hash is the sum of key[i] * 37^(n-1-i), modulo the width of unsigned long. */
  lemma {:induction false} HashMeans(key: Key)
    ensures Hash(key) == Positional(key, 37) % ULONG
    decreases |key|
  {
    hide Positional;
    if key == [] {
      PositionalOfNothing();
    } else {
      var init, c := key[..|key| - 1], key[|key| - 1];
      HashMeans(init);
      assert key == init + [c];
      PositionalSnoc(init, c, 37);
      ModMul(Positional(init, 37), c);
    }
  }

  lemma PositionalOfNothing()
    ensures Positional([], 37) == 0
  {
  }

  method HashString(key: Key) returns (hashValue: nat)
    ensures hashValue == Hash(key)
  {
    hashValue := 0;
    var i := 0;
    while i < |key|
      invariant i <= |key| && hashValue == Hash(key[..i])
    {
      assert key[..i + 1][..i] == key[..i];
      hashValue := (hashValue * 37 + key[i]) % ULONG;
      i := i + 1;
    }
    assert key[..i] == key;
  }

  function Home(key: Key, n: nat): (i: nat)
    requires n > 0
    ensures i < n
  {
    Hash(key) % n
  }

  /** A node. Its key keeps its characters; only the pointer to them is ever replaced. */
  class HashPair<V> {
    const key: Key
    var value: V
    var next: HashPair?<V>

    constructor (key: Key, value: V, next: HashPair?<V>)
      ensures this.key == key && this.value == value && this.next == next
    {
      this.key, this.value, this.next := key, value, next;
    }
  }

  /** The node at place `j` of a chain, null behind its end. */
  ghost function At<V>(chain: seq<HashPair<V>>, j: nat): HashPair?<V> {
    if j < |chain| then chain[j] else null
  }

  /** The nodes of `chain`, each one once, linked in this order from `head`. */
  ghost predicate Linked<V>(head: HashPair?<V>, chain: seq<HashPair<V>>)
    reads chain`next
  {
    && head == At(chain, 0)
    && (forall j :: 0 <= j < |chain| ==> chain[j].next == At(chain, j + 1))
    && (forall j, k :: 0 <= j < k < |chain| ==> chain[j] != chain[k])
  }

  lemma LinkedPush<V>(node: HashPair<V>, chain: seq<HashPair<V>>)
    requires Linked(node.next, chain) && node !in chain
    ensures Linked(node, [node] + chain)
  {
    var c := [node] + chain;
    forall j | 0 <= j < |c|
      ensures c[j].next == At(c, j + 1)
    {
      assert j > 0 ==> c[j] == chain[j - 1];
      assert j + 1 < |c| ==> c[j + 1] == chain[j];
    }
  }

  lemma LinkedPop<V>(head: HashPair?<V>, chain: seq<HashPair<V>>)
    requires Linked(head, chain) && head != null
    ensures chain != [] && head == chain[0] && Linked(chain[0].next, chain[1..]) && chain[0] !in chain[1..]
  {
    var c := chain[1..];
    forall j | 0 <= j < |c|
      ensures c[j].next == At(c, j + 1)
    {
      assert c[j] == chain[j + 1];
      assert j + 1 < |c| ==> c[j + 1] == chain[j + 2];
    }
  }

  /** The search loop: the first node with the key, the one before it, and its place. */
  method Walk<V>(head: HashPair?<V>, key: Key, ghost chain: seq<HashPair<V>>)
    returns (prev: HashPair?<V>, pair: HashPair?<V>, ghost j: nat)
    requires Linked(head, chain)
    ensures j <= |chain| && pair == At(chain, j) && prev == (if j > 0 then chain[j - 1] else null)
    ensures pair != null ==> pair.key == key
    ensures pair == null ==> forall k :: 0 <= k < |chain| ==> chain[k].key != key
  {
    prev, pair, j := null, head, 0;
    while pair != null && pair.key != key
      invariant j <= |chain| && pair == At(chain, j)
      invariant prev == (if j > 0 then chain[j - 1] else null)
      invariant forall k :: 0 <= k < j ==> chain[k].key != key
      decreases |chain| - j
    {
      prev, pair, j := pair, pair.next, j + 1;
    }
  }

  /** Every node is in the chain of its key, and nowhere else. */
  ghost predicate Filed<V>(chains: seq<seq<HashPair<V>>>, nodes: set<HashPair<V>>) {
    && |chains| > 0
    && (forall i, p :: 0 <= i < |chains| && p in chains[i] ==> p in nodes && Home(p.key, |chains|) == i)
    && (forall p :: p in nodes ==> p in chains[Home(p.key, |chains|)])
  }

  /** One node for each key of the map. */
  ghost predicate Keyed<V>(nodes: set<HashPair<V>>, contents: map<Key, V>) {
    && (forall p :: p in nodes ==> p.key in contents)
    && (forall p, q :: p in nodes && q in nodes && p.key == q.key ==> p == q)
    && (forall k :: k in contents ==> exists p :: p in nodes && p.key == k)
  }

  /** The bucket array holds the chains. */
  ghost predicate AllLinked<V>(buckets: array<HashPair?<V>>, chains: seq<seq<HashPair<V>>>, nodes: set<HashPair<V>>)
    requires buckets.Length == |chains| && Filed(chains, nodes)
    reads buckets, nodes`next
  {
    forall i :: 0 <= i < |chains| ==> Linked(buckets[i], chains[i])
  }

  lemma FiledPush<V>(chains: seq<seq<HashPair<V>>>, nodes: set<HashPair<V>>, h: nat, p: HashPair<V>)
    requires Filed(chains, nodes) && p !in nodes && h == Home(p.key, |chains|)
    ensures Filed(chains[h := [p] + chains[h]], nodes + {p})
    ensures forall i :: 0 <= i < |chains| ==> p !in chains[i]
  {
  }

  lemma KeyedPush<V>(nodes: set<HashPair<V>>, contents: map<Key, V>, p: HashPair<V>, value: V)
    requires Keyed(nodes, contents) && p.key !in contents
    ensures Keyed(nodes + {p}, contents[p.key := value]) && forall q :: q in nodes ==> q.key in contents
  {
    var nodes', contents' := nodes + {p}, contents[p.key := value];
    forall k | k in contents'
      ensures exists q :: q in nodes' && q.key == k
    {
      if k == p.key {
        assert p in nodes';
      } else {
        var q :| q in nodes && q.key == k;
        assert q in nodes';
      }
    }
  }

  /** A chain without its node at place `j`. */
  ghost function Cut<V>(chain: seq<HashPair<V>>, j: nat): seq<HashPair<V>>
    requires j < |chain|
  {
    chain[..j] + chain[j + 1..]
  }

  lemma FiledCut<V>(chains: seq<seq<HashPair<V>>>, nodes: set<HashPair<V>>, h: nat, j: nat)
    requires Filed(chains, nodes) && h < |chains| && j < |chains[h]|
    requires forall i, k :: 0 <= i < k < |chains[h]| ==> chains[h][i] != chains[h][k]
    ensures Filed(chains[h := Cut(chains[h], j)], nodes - {chains[h][j]}) && chains[h][j] in nodes
  {
    hide Home;
    var chain, node := chains[h], chains[h][j];
    assert node in chain;
    CutElements(chain, j);
    Elsewhere(chains, nodes, h, node);
    var chains', nodes' := chains[h := Cut(chain, j)], nodes - {node};
    forall p | p in nodes'
      ensures p in chains'[Home(p.key, |chains|)]
    {
      var i := Home(p.key, |chains|);
      assert p in nodes && p in chains[Home(p.key, |chains|)];
      assert chains'[i] == if i == h then Cut(chain, j) else chains[i];
    }
    forall i, p | 0 <= i < |chains| && p in chains'[i]
      ensures p in nodes' && Home(p.key, |chains|) == i
    {
      if i == h {
        assert p in Cut(chain, j);
        assert p in chain;
      }
      assert p in chains[i];
    }
  }

  lemma Elsewhere<V>(chains: seq<seq<HashPair<V>>>, nodes: set<HashPair<V>>, h: nat, p: HashPair<V>)
    requires Filed(chains, nodes) && h < |chains| && p in chains[h]
    ensures p in nodes && forall i :: 0 <= i < |chains| && i != h ==> p !in chains[i]
  {
  }

  lemma CutElements<V>(chain: seq<HashPair<V>>, j: nat)
    requires j < |chain| && forall i, k :: 0 <= i < k < |chain| ==> chain[i] != chain[k]
    ensures forall p :: p in Cut(chain, j) <==> p in chain && p != chain[j]
  {
    forall p | p in chain && p != chain[j]
      ensures p in Cut(chain, j)
    {
      var i :| 0 <= i < |chain| && chain[i] == p;
      assert Cut(chain, j)[if i < j then i else i - 1] == p;
    }
  }

  lemma KeyedCut<V>(nodes: set<HashPair<V>>, contents: map<Key, V>, p: HashPair<V>)
    requires Keyed(nodes, contents) && p in nodes
    ensures Keyed(nodes - {p}, contents - {p.key}) && |contents - {p.key}| == |contents| - 1
  {
    var nodes', contents' := nodes - {p}, contents - {p.key};
    forall k | k in contents'
      ensures exists q :: q in nodes' && q.key == k
    {
      var q :| q in nodes && q.key == k;
      assert q in nodes';
    }
    assert contents'.Keys == contents.Keys - {p.key};
  }

  lemma DistinctNodes<V>(head: HashPair?<V>, chain: seq<HashPair<V>>)
    requires Linked(head, chain)
    ensures forall i, k :: 0 <= i < k < |chain| ==> chain[i] != chain[k]
  {
  }

  /** Takes the node at place `j` out of its chain. */
  method Unlink<V>(head: HashPair?<V>, prev: HashPair?<V>, pair: HashPair<V>, ghost chain: seq<HashPair<V>>, ghost j: nat)
    returns (head': HashPair?<V>)
    requires Linked(head, chain) && j < |chain| && pair == chain[j] && prev == (if j > 0 then chain[j - 1] else null)
    modifies (if prev == null then {} else {prev})`next
    ensures Linked(head', Cut(chain, j))
  {
    hide Cut;
    assert forall k :: 0 <= k < |chain| ==> chain[k].next == At(chain, k + 1);
    if prev != null {
      prev.next := pair.next;
      head' := head;
    } else {
      head' := pair.next;
    }
    LinkedCut(head', chain, j);
  }

  lemma LinkedCut<V>(head: HashPair?<V>, chain: seq<HashPair<V>>, j: nat)
    requires j < |chain| && head == At(chain, if j == 0 then 1 else 0)
    requires forall k :: 0 <= k < |chain| && k != j - 1 ==> chain[k].next == At(chain, k + 1)
    requires j > 0 ==> chain[j - 1].next == At(chain, j + 1)
    requires forall i, k :: 0 <= i < k < |chain| ==> chain[i] != chain[k]
    ensures Linked(head, Cut(chain, j))
  {
    var c := Cut(chain, j);
    forall k | 0 <= k < |c|
      ensures c[k].next == At(c, k + 1)
    {
      assert c[k] == chain[if k < j then k else k + 1];
      assert At(c, k + 1) == At(chain, if k + 1 < j then k + 1 else k + 2);
    }
  }

  /** Takes a node out of its bucket. */
  method CutBucket<V>(buckets: array<HashPair?<V>>, ghost chains: seq<seq<HashPair<V>>>, ghost nodes: set<HashPair<V>>,
                      h: nat, prev: HashPair?<V>, pair: HashPair<V>, ghost j: nat)
    requires buckets.Length == |chains| && Filed(chains, nodes) && AllLinked(buckets, chains, nodes)
    requires h < |chains| && j < |chains[h]| && pair == chains[h][j]
    requires prev == (if j > 0 then chains[h][j - 1] else null)
    modifies buckets, nodes`next
    ensures Filed(chains[h := Cut(chains[h], j)], nodes - {pair})
    ensures AllLinked(buckets, chains[h := Cut(chains[h], j)], nodes - {pair})
  {
    hide Filed, Linked, Cut, At;
    ghost var chain := chains[h];
    assert Linked(buckets[h], chain);
    DistinctNodes(buckets[h], chain);
    FiledCut(chains, nodes, h, j);
    if prev != null {
      assert prev == chain[j - 1];
      Elsewhere(chains, nodes, h, prev);
    }
    var head := Unlink(buckets[h], prev, pair, chain, j);
    assert forall i :: 0 <= i < |chains| && i != h ==> Linked(buckets[i], chains[i]);
    buckets[h] := head;
  }

  /** Puts a node in front of its bucket. */
  method PushNode<V>(buckets: array<HashPair?<V>>, ghost chains: seq<seq<HashPair<V>>>, ghost nodes: set<HashPair<V>>,
                     h: nat, p: HashPair<V>)
    requires buckets.Length == |chains| && Filed(chains, nodes) && AllLinked(buckets, chains, nodes)
    requires p !in nodes && |chains| > 0 && h == Home(p.key, |chains|)
    modifies buckets, p`next
    ensures Filed(chains[h := [p] + chains[h]], nodes + {p})
    ensures AllLinked(buckets, chains[h := [p] + chains[h]], nodes + {p})
  {
    hide Filed, Linked;
    FiledPush(chains, nodes, h, p);
    assert Linked(buckets[h], chains[h]);
    p.next := buckets[h];
    LinkedPush(p, chains[h]);
    assert forall i :: 0 <= i < |chains| && i != h ==> Linked(buckets[i], chains[i]);
    buckets[h] := p;
  }

  ghost function Elements<V>(chain: seq<HashPair<V>>): set<HashPair<V>> {
    set p | p in chain
  }

  /** The inner loop of a rehash: moves the nodes of one old chain to their new buckets, one by one. */
  method MoveChain<V>(head: HashPair?<V>, ghost chain: seq<HashPair<V>>,
                      buckets: array<HashPair?<V>>, ghost chains: seq<seq<HashPair<V>>>, ghost nodes: set<HashPair<V>>)
    returns (ghost chains': seq<seq<HashPair<V>>>)
    requires Linked(head, chain) && Elements(chain) !! nodes
    requires buckets.Length == |chains| && Filed(chains, nodes) && AllLinked(buckets, chains, nodes)
    modifies buckets, Elements(chain)`next
    ensures |chains'| == |chains| && Filed(chains', nodes + Elements(chain))
    ensures AllLinked(buckets, chains', nodes + Elements(chain))
  {
    hide Filed, Linked, AllLinked;
    var pair := head;
    ghost var rest, moved := chain, nodes;
    chains' := chains;
    while pair != null
      invariant Linked(pair, rest) && Elements(rest) !! moved && Elements(rest) <= Elements(chain)
      invariant moved + Elements(rest) == nodes + Elements(chain)
      invariant |chains'| == |chains| && Filed(chains', moved) && AllLinked(buckets, chains', moved)
      decreases |rest|
    {
      LinkedPop(pair, rest);
      var nextPair := pair.next;
      var h := HashString(pair.key);
      FiledSize(chains', moved);
      h := h % buckets.Length;
      PushNode(buckets, chains', moved, h, pair);
      assert Elements(rest) == {pair} + Elements(rest[1..]);
      chains', moved := chains'[h := [pair] + chains'[h]], moved + {pair};
      pair, rest := nextPair, rest[1..];
    }
    LinkedEnd(rest);
    assert moved == nodes + Elements(chain);
  }

  /** The outer loop of a rehash. */
  method MoveAll<V>(from: array<HashPair?<V>>, ghost chains: seq<seq<HashPair<V>>>, ghost nodes: set<HashPair<V>>,
                    buckets: array<HashPair?<V>>)
    returns (ghost chains': seq<seq<HashPair<V>>>)
    requires from.Length == |chains| && Filed(chains, nodes) && AllLinked(from, chains, nodes)
    requires from != buckets && buckets.Length > 0 && forall k :: 0 <= k < buckets.Length ==> buckets[k] == null
    modifies buckets, nodes`next
    ensures |chains'| == buckets.Length && Filed(chains', nodes)
    ensures AllLinked(buckets, chains', nodes)
  {
    hide Linked;
    var i := 0;
    ghost var moved: set<HashPair<V>> := {};
    chains' := seq(buckets.Length, _ => []);
    EmptyLinked(buckets, chains');
    while i < from.Length
      invariant i <= from.Length && |chains'| == buckets.Length && Filed(chains', moved) && AllLinked(buckets, chains', moved)
      invariant moved <= nodes && forall p :: p in nodes ==> (p in moved <==> Home(p.key, |chains|) < i)
      invariant forall k :: i <= k < |chains| ==> Linked(from[k], chains[k])
    {
      chains' := MoveChain(from[i], chains[i], buckets, chains', moved);
      moved := moved + Elements(chains[i]);
      i := i + 1;
    }
    assert moved == nodes;
  }

  lemma EmptyLinked<V>(buckets: array<HashPair?<V>>, chains: seq<seq<HashPair<V>>>)
    requires 0 < buckets.Length == |chains|
    requires forall k :: 0 <= k < |chains| ==> buckets[k] == null && chains[k] == []
    ensures Filed(chains, {}) && AllLinked(buckets, chains, {})
  {
  }

  lemma LinkedEnd<V>(chain: seq<HashPair<V>>)
    requires Linked(null, chain)
    ensures chain == [] && Elements(chain) == {}
  {
    assert At(chain, 0) == null;
  }

  lemma FiledSize<V>(chains: seq<seq<HashPair<V>>>, nodes: set<HashPair<V>>)
    requires Filed(chains, nodes)
    ensures |chains| > 0
  {
  }

  /** Every node has the value of its key. */
  ghost predicate Valued<V>(nodes: set<HashPair<V>>, contents: map<Key, V>)
    requires Keyed(nodes, contents)
    reads nodes`value
  {
    forall p :: p in nodes ==> contents[p.key] == p.value
  }

  lemma ValuedCut<V>(nodes: set<HashPair<V>>, contents: map<Key, V>, p: HashPair<V>)
    requires Keyed(nodes, contents) && p in nodes && Valued(nodes, contents)
    requires Keyed(nodes - {p}, contents - {p.key})
    ensures Valued(nodes - {p}, contents - {p.key})
  {
  }

  lemma ValuedPush<V>(nodes: set<HashPair<V>>, contents: map<Key, V>, p: HashPair<V>)
    requires Keyed(nodes, contents) && p.key !in contents && Valued(nodes, contents)
    requires Keyed(nodes + {p}, contents[p.key := p.value])
    ensures Valued(nodes + {p}, contents[p.key := p.value])
  {
  }

  lemma ValuedMeans<V>(nodes: set<HashPair<V>>, contents: map<Key, V>)
    requires Keyed(nodes, contents) && Valued(nodes, contents)
    ensures forall q :: q in nodes ==> q.key in contents && contents[q.key] == q.value
  {
  }

  lemma KeyedSet<V>(nodes: set<HashPair<V>>, contents: map<Key, V>, p: HashPair<V>, value: V)
    requires Keyed(nodes, contents) && p in nodes
    ensures p.key in contents && Keyed(nodes, contents[p.key := value]) && |contents[p.key := value]| == |contents|
    ensures forall q :: q in nodes && q != p ==> q.key in contents && q.key != p.key
  {
    assert contents[p.key := value].Keys == contents.Keys;
  }

  lemma ValuedSet<V>(nodes: set<HashPair<V>>, contents: map<Key, V>, p: HashPair<V>)
    requires Keyed(nodes, contents) && p in nodes && Keyed(nodes, contents[p.key := p.value])
    requires forall q :: q in nodes && q != p ==> q.key in contents && contents[q.key] == q.value
    ensures Valued(nodes, contents[p.key := p.value])
  {
    KeyedSet(nodes, contents, p, p.value);
  }

  class HashTable<V> {
    var bucketArray: array<HashPair?<V>>
    var numOfBuckets: nat
    var numOfElements: nat
    var idealRatio: real
    var lowerRehashThreshold: real
    var upperRehashThreshold: real
    ghost var chains: seq<seq<HashPair<V>>>
    ghost var nodes: set<HashPair<V>>
    ghost var contents: map<Key, V>

    ghost predicate Valid()
      reads this, bucketArray, nodes
    {
      && numOfBuckets == bucketArray.Length == |chains|
      && Filed(chains, nodes)
      && AllLinked(bucketArray, chains, nodes)
      && Keyed(nodes, contents)
      && Valued(nodes, contents)
      && numOfElements == |contents|
      && idealRatio > 0.0
    }

    constructor (numOfBuckets: nat)
      requires numOfBuckets > 0
      ensures Valid() && fresh(bucketArray) && nodes == {} && contents == map[]
      ensures this.numOfBuckets == numOfBuckets
      ensures idealRatio == 3.0 && lowerRehashThreshold == 0.0 && upperRehashThreshold == 15.0
    {
      bucketArray := new HashPair?<V>[numOfBuckets](_ => null);
      this.numOfBuckets, numOfElements := numOfBuckets, 0;
      idealRatio, lowerRehashThreshold, upperRehashThreshold := 3.0, 0.0, 15.0;
      chains, nodes, contents := seq(numOfBuckets, _ => []), {}, map[];
    }

    lemma KeyHasNode(key: Key)
      requires Valid() && key in contents
      ensures exists j :: 0 <= j < |chains[Home(key, numOfBuckets)]| && chains[Home(key, numOfBuckets)][j].key == key
    {
      var p :| p in nodes && p.key == key;
      var chain := chains[Home(key, numOfBuckets)];
      assert p in chain;
      var j :| 0 <= j < |chain| && chain[j] == p;
    }

    /** Walks a bucket to the node with the key; `j` is its place in the chain. */
    method Find(key: Key) returns (hashValue: nat, prev: HashPair?<V>, pair: HashPair?<V>, ghost j: nat)
      requires Valid()
      ensures |chains| == numOfBuckets && hashValue == Home(key, numOfBuckets)
      ensures j <= |chains[hashValue]| && pair == At(chains[hashValue], j)
      ensures prev == (if j > 0 then chains[hashValue][j - 1] else null)
      ensures pair != null ==> pair in nodes && pair.key == key && key in contents && contents[key] == pair.value
      ensures pair == null ==> key !in contents
    {
      var h := HashString(key);
      hashValue := h % numOfBuckets;
      prev, pair, j := Walk(bucketArray[hashValue], key, chains[hashValue]);
      if pair != null {
        assert pair in chains[hashValue];
      } else if key in contents {
        KeyHasNode(key);
        assert false;
      }
    }

    /** hashtable_get. */
    method Get(key: Key) returns (value: Option<V>)
      requires Valid()
      ensures value == if key in contents then Some(contents[key]) else None
    {
      var hashValue, prev, pair, j := Find(key);
      value := if pair == null then None else Some(pair.value);
    }

    /** The value of a key that is already there is replaced. */
    method Replace(pair: HashPair<V>, value: V)
      requires Valid() && pair in nodes
      modifies this`contents, pair`value
      ensures Valid() && contents == old(contents)[pair.key := value]
    {
      hide Filed, Linked, AllLinked, Keyed, Valued;
      KeyedSet(nodes, contents, pair, value);
      ValuedMeans(nodes, contents);
      ghost var before := contents;
      pair.value := value;
      contents := before[pair.key := value];
      ValuedSet(nodes, before, pair);
    }

    /** A new node in front of its bucket. */
    method Link(hashValue: nat, key: Key, value: V)
      requires Valid() && hashValue == Home(key, numOfBuckets) && key !in contents
      modifies this`numOfElements, this`chains, this`nodes, this`contents, bucketArray
      ensures Valid() && contents == old(contents)[key := value]
      ensures fresh(nodes - old(nodes))
      ensures numOfElements == old(numOfElements) + 1
    {
      hide Filed, Keyed, Linked, AllLinked, Valued;
      var newPair := new HashPair(key, value, bucketArray[hashValue]);
      KeyedPush(nodes, contents, newPair, value);
      ValuedPush(nodes, contents, newPair);
      PushNode(bucketArray, chains, nodes, hashValue, newPair);
      numOfElements := numOfElements + 1;
      chains := chains[hashValue := [newPair] + chains[hashValue]];
      nodes := nodes + {newPair};
      contents := contents[key := value];
    }

    /** Takes a node out of its bucket. */
    method Drop(hashValue: nat, prev: HashPair?<V>, pair: HashPair<V>, ghost j: nat)
      requires Valid() && hashValue < numOfBuckets && j < |chains[hashValue]| && pair == chains[hashValue][j] && pair in nodes
      requires prev == (if j > 0 then chains[hashValue][j - 1] else null)
      modifies this`numOfElements, this`chains, this`nodes, this`contents, bucketArray, nodes`next
      ensures Valid() && contents == old(contents) - {pair.key}
      ensures nodes <= old(nodes)
      ensures numOfElements == old(numOfElements) - 1
    {
      hide Filed, Keyed, Linked, AllLinked, Cut, Valued;
      KeyedCut(nodes, contents, pair);
      ValuedCut(nodes, contents, pair);
      CutBucket(bucketArray, chains, nodes, hashValue, prev, pair, j);
      numOfElements := numOfElements - 1;
      chains := chains[hashValue := Cut(chains[hashValue], j)];
      nodes := nodes - {pair};
      contents := contents - {pair.key};
    }

    /** hashtable_rehash: zero asks for the ideal number of buckets. */
    method Rehash(buckets: nat)
      requires Valid()
      modifies this`bucketArray, this`numOfBuckets, this`chains, nodes`next
      ensures Valid() && (bucketArray == old(bucketArray) || fresh(bucketArray))
      ensures buckets > 0 ==> numOfBuckets == buckets
      ensures buckets == 0 ==> IsIdeal(numOfBuckets, numOfElements, idealRatio)
    {
      hide Filed, Keyed, Linked, AllLinked, Valued, ProbablePrime, IsIdeal;
      var n := buckets;
      if n == 0 {
        n := IdealNumOfBuckets(numOfElements, idealRatio);
        IdealIsLarge(n, numOfElements, idealRatio);
      }
      if n == numOfBuckets {
        return;
      }
      var newBucketArray := new HashPair?<V>[n](_ => null);
      ghost var newChains := MoveAll(bucketArray, chains, nodes, newBucketArray);
      bucketArray := newBucketArray;
      numOfBuckets := n;
      chains := newChains;
    }

    /**
     hashtable_put. With the default ratios, after a new key has been added there are at
     most 15 elements for each bucket, whatever happened before.
     */
    method Put(key: Key, value: V)
      requires Valid()
      modifies this, bucketArray, nodes
      ensures Valid() && contents == old(contents)[key := value]
      ensures fresh(nodes - old(nodes)) && (bucketArray == old(bucketArray) || fresh(bucketArray))
      ensures idealRatio == old(idealRatio)
      ensures lowerRehashThreshold == old(lowerRehashThreshold) && upperRehashThreshold == old(upperRehashThreshold)
      ensures if key !in old(contents) && upperRehashThreshold > idealRatio
                  && Ratio(numOfElements, old(numOfBuckets)) > upperRehashThreshold
              then IsIdeal(numOfBuckets, numOfElements, idealRatio)
              else numOfBuckets == old(numOfBuckets)
      ensures key !in old(contents) && idealRatio == 3.0 && upperRehashThreshold == 15.0 ==>
                numOfElements <= 15 * numOfBuckets
    {
      hide Filed, Keyed, Linked, AllLinked, Valued, ProbablePrime, Hash, Home, Ratio, Ideal, IsIdeal;
      var hashValue, prev, pair, j := Find(key);
      if pair != null {
        Replace(pair, value);
      } else {
        Link(hashValue, key, value);
        if upperRehashThreshold > idealRatio {
          var elementToBucketRatio := Ratio(numOfElements, numOfBuckets);
          if elementToBucketRatio > upperRehashThreshold {
            Rehash(0);
            if idealRatio == 3.0 {
              IdealIsLarge(numOfBuckets, numOfElements, idealRatio);
              IdealLoad(numOfElements, idealRatio, numOfBuckets);
            }
          } else if upperRehashThreshold == 15.0 {
            LowLoad(numOfElements, numOfBuckets);
          }
        }
      }
    }

    /** hashtable_remove. */
    method Remove(key: Key)
      requires Valid()
      modifies this, bucketArray, nodes
      ensures Valid() && contents == old(contents) - {key}
      ensures nodes <= old(nodes) && (bucketArray == old(bucketArray) || fresh(bucketArray))
      ensures idealRatio == old(idealRatio)
      ensures lowerRehashThreshold == old(lowerRehashThreshold) && upperRehashThreshold == old(upperRehashThreshold)
      ensures if key in old(contents) && lowerRehashThreshold > 0.0
                  && Ratio(numOfElements, old(numOfBuckets)) < lowerRehashThreshold
              then IsIdeal(numOfBuckets, numOfElements, idealRatio)
              else numOfBuckets == old(numOfBuckets)
    {
      hide Filed, Keyed, Linked, AllLinked, Valued, ProbablePrime, Hash, Home, Ratio, Ideal, IsIdeal;
      var hashValue, prev, pair, j := Find(key);
      if pair != null {
        Drop(hashValue, prev, pair, j);
        if lowerRehashThreshold > 0.0 {
          var elementToBucketRatio := Ratio(numOfElements, numOfBuckets);
          if elementToBucketRatio < lowerRehashThreshold {
            Rehash(0);
          }
        }
      } else {
        assert contents - {key} == contents;
      }
    }

    /** hashtable_remove_all: walks and drops every chain, then goes back to five buckets. */
    method RemoveAll()
      requires Valid()
      modifies this, bucketArray
      ensures Valid() && contents == map[] && nodes == {} && numOfElements == 0 && numOfBuckets == 5
      ensures idealRatio == old(idealRatio)
      ensures lowerRehashThreshold == old(lowerRehashThreshold) && upperRehashThreshold == old(upperRehashThreshold)
    {
      hide Filed, Keyed, Linked, AllLinked, Valued, ProbablePrime;
      FreeChains(bucketArray, chains, nodes);
      numOfElements := 0;
      chains, nodes, contents := seq(numOfBuckets, _ => []), {}, map[];
      FiledSize(old(chains), old(nodes));
      EmptyLinked(bucketArray, chains);
      EmptyKeyed<V>();
      Rehash(5);
    }
  }

  /** The loops of remove_all. */
  method FreeChains<V>(buckets: array<HashPair?<V>>, ghost chains: seq<seq<HashPair<V>>>, ghost nodes: set<HashPair<V>>)
    requires buckets.Length == |chains| && Filed(chains, nodes) && AllLinked(buckets, chains, nodes)
    modifies buckets
    ensures forall k :: 0 <= k < buckets.Length ==> buckets[k] == null
  {
    hide Filed;
    var i := 0;
    while i < buckets.Length
      invariant i <= buckets.Length
      invariant forall k :: 0 <= k < i ==> buckets[k] == null
      invariant forall k :: i <= k < |chains| ==> Linked(buckets[k], chains[k])
    {
      var pair := buckets[i];
      ghost var j := 0;
      while pair != null
        invariant j <= |chains[i]| && pair == At(chains[i], j)
        decreases |chains[i]| - j
      {
        pair, j := pair.next, j + 1;
      }
      buckets[i] := null;
      i := i + 1;
    }
  }

  // ---------------------------------------------------------------- the count of elements

  lemma {:induction false} KeyedSize<V>(nodes: set<HashPair<V>>, contents: map<Key, V>)
    requires Keyed(nodes, contents)
    ensures |nodes| == |contents|
    decreases nodes
  {
    if nodes == {} {
      assert contents.Keys == {};
    } else {
      var p :| p in nodes;
      KeyedCut(nodes, contents, p);
      KeyedSize(nodes - {p}, contents - {p.key});
    }
  }

  ghost function TotalLength<V>(chains: seq<seq<HashPair<V>>>, i: nat): nat
    requires i <= |chains|
  {
    if i == 0 then 0 else TotalLength(chains, i - 1) + |chains[i - 1]|
  }

  lemma {:induction false} ElementsSize<V>(chain: seq<HashPair<V>>)
    requires forall j, k :: 0 <= j < k < |chain| ==> chain[j] != chain[k]
    ensures |Elements(chain)| == |chain|
  {
    if chain != [] {
      ElementsSize(chain[1..]);
      assert Elements(chain) == {chain[0]} + Elements(chain[1..]);
      assert chain[0] !in chain[1..];
    }
  }

  /** The nodes in the first `i` of `n` buckets. */
  ghost function UpTo<V>(nodes: set<HashPair<V>>, n: nat, i: nat): set<HashPair<V>>
    requires n > 0
  {
    set p | p in nodes && Home(p.key, n) < i
  }

  lemma UpToStep<V>(chains: seq<seq<HashPair<V>>>, nodes: set<HashPair<V>>, i: nat)
    requires Filed(chains, nodes) && i < |chains|
    ensures UpTo(nodes, |chains|, i + 1) == UpTo(nodes, |chains|, i) + Elements(chains[i])
    ensures UpTo(nodes, |chains|, i) !! Elements(chains[i])
  {
    hide Hash;
  }

  lemma {:induction false} TotalUpTo<V>(chains: seq<seq<HashPair<V>>>, nodes: set<HashPair<V>>, i: nat)
    requires Filed(chains, nodes) && 0 < |chains| && i <= |chains|
    requires forall c :: c in chains ==> forall j, k :: 0 <= j < k < |c| ==> c[j] != c[k]
    ensures TotalLength(chains, i) == |UpTo(nodes, |chains|, i)|
  {
    hide Home, Filed;
    if i == 0 {
      assert UpTo(nodes, |chains|, 0) == {};
    } else {
      hide UpTo, Elements;
      TotalUpTo(chains, nodes, i - 1);
      var chain := chains[i - 1];
      assert chain in chains;
      ElementsSize(chain);
      UpToStep(chains, nodes, i - 1);
    }
  }

  /** Every element is in the bucket of its key's hash. */
  lemma BucketMeans<V>(table: HashTable<V>, i: nat, p: HashPair<V>)
    requires table.Valid() && i < table.numOfBuckets && |table.chains| == table.numOfBuckets && p in table.chains[i]
    ensures i == Positional(p.key, 37) % ULONG % table.numOfBuckets
  {
    hide Linked, AllLinked, Keyed, Valued, Hash, Positional;
    HashMeans(p.key);
  }

  /** numOfElements is the total length of the chains. */
  lemma CountIsTotal<V>(table: HashTable<V>)
    requires table.Valid()
    ensures table.numOfElements == TotalLength(table.chains, table.numOfBuckets)
  {
    var chains, nodes := table.chains, table.nodes;
    forall c | c in chains
      ensures forall j, k :: 0 <= j < k < |c| ==> c[j] != c[k]
    {
      var i :| 0 <= i < |chains| && chains[i] == c;
      DistinctNodes(table.bucketArray[i], c);
    }
    KeyedSize(nodes, table.contents);
    TotalUpTo(chains, nodes, |chains|);
    assert UpTo(nodes, |chains|, |chains|) == nodes;
  }

  /** Elements to buckets. */
  lemma IdealIsLarge(n: nat, elements: nat, ratio: real)
    requires ratio > 0.0 && IsIdeal(n, elements, ratio)
    ensures n >= 5 && n >= Ideal(elements, ratio)
  {
    hide ProbablePrime, Ideal;
  }

  function Ratio(elements: nat, buckets: nat): real
    requires buckets > 0
  {
    elements as real / buckets as real
  }

  lemma EmptyKeyed<V>()
    ensures Keyed<V>({}, map[]) && Valued<V>({}, map[])
  {
  }

  lemma IdealLoad(elements: nat, ratio: real, buckets: nat)
    requires ratio == 3.0 && buckets >= 5 && buckets >= Ideal(elements, ratio)
    ensures elements <= 15 * buckets
  {
    assert elements as real / 3.0 < buckets as real + 1.0;
  }

  lemma LowLoad(elements: nat, buckets: nat)
    requires buckets > 0 && Ratio(elements, buckets) <= 15.0
    ensures elements <= 15 * buckets
  {
    RatioBound(Ratio(elements, buckets), elements as real, buckets as real);
    assert 15.0 * buckets as real == (15 * buckets) as real;
  }

  lemma RatioBound(q: real, e: real, b: real)
    requires b > 0.0 && q == e / b && q <= 15.0
    ensures e <= 15.0 * b
  {
    assert e == q * b;
    assert (15.0 - q) * b >= 0.0;
  }
}
