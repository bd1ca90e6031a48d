/** The dependency ordering of the package builder: Kahn's topological
    sort over the package records, with a FIFO queue, in-place removal of
    satisfied dependencies, a reorder of the packages by name, and exit
    status 13 when some package keeps unmet dependencies. */
module PackageOrder {
  import opened Sequences

  /** A registered package, reduced to what the ordering reads. */
  datatype Package = Package(name: string, dependencies: seq<string>)

  /** A deep copy of a package record (an element of `G` or `S`): its
      dependency list is updated in place. */
  class Node {
    const name: string
    var dependencies: seq<string>

    constructor (name: string, dependencies: seq<string>)
      ensures this.name == name && this.dependencies == dependencies
    {
      this.name := name;
      this.dependencies := dependencies;
    }
  }

  function LowerChar(c: char): char {
    if 'A' <= c <= 'Z' then (c as int + 32) as char else c
  }

  /** `str.lower` on ASCII letters, character by character. */
  function Lower(s: string): (r: string)
    ensures |r| == |s|
  {
    seq(|s|, k requires 0 <= k < |s| => LowerChar(s[k]))
  }

  /** Lower-casing twice is lower-casing once. */
  lemma LowerIdempotent(s: string)
    ensures Lower(Lower(s)) == Lower(s)
  {
  }

  /** `[d.lower() for d in ds]`. */
  function LowerAll(ds: seq<string>): (r: seq<string>)
    ensures |r| == |ds|
  {
    seq(|ds|, k requires 0 <= k < |ds| => Lower(ds[k]))
  }

  /** `s.index(x)`: the position of the first occurrence. */
  function FirstIndex(s: seq<string>, x: string): (i: nat)
    requires x in s
    ensures i < |s| && s[i] == x && x !in s[..i]
  {
    if s[0] == x then 0
    else
      var i := FirstIndex(s[1..], x);
      assert s[..i + 1] == [s[0]] + s[1..][..i];
      i + 1
  }

  /** `if x in s: s.remove(x)`: the FIRST occurrence of `x` goes. */
  function RemoveFirst(s: seq<string>, x: string): (r: seq<string>)
    ensures x !in s ==> r == s
    ensures x in s ==> |r| == |s| - 1
  {
    if s == [] then []
    else if s[0] == x then s[1..]
    else
      assert x in s ==> x in s[1..];
      [s[0]] + RemoveFirst(s[1..], x)
  }

  /** One occurrence of `x` goes, if there is one, and nothing else. */
  lemma {:induction false} RemoveFirstMultiset(s: seq<string>, x: string)
    ensures multiset(RemoveFirst(s, x)) == multiset(s) - multiset{x}
  {
    if s != [] {
      assert s == [s[0]] + s[1..];
      if s[0] != x {
        RemoveFirstMultiset(s[1..], x);
      }
    }
  }

  /** It is the first occurrence that goes: the elements before it stay,
      and so do the elements after it. */
  lemma {:induction false} RemoveFirstIsFirst(s: seq<string>, x: string)
    requires x in s
    ensures RemoveFirst(s, x) == s[..FirstIndex(s, x)] + s[FirstIndex(s, x) + 1..]
  {
    if s[0] != x {
      RemoveFirstIsFirst(s[1..], x);
      var i := FirstIndex(s[1..], x);
      assert s[..i + 1] == [s[0]] + s[1..][..i];
      assert s[i + 2..] == s[1..][i + 1..];
    }
  }

  /** What is left of `deps` once the names `ns` have been removed one by
      one, in order. */
  function RemoveEach(deps: seq<string>, ns: seq<string>): seq<string> {
    if ns == [] then deps
    else
      var n := |ns| - 1;
      RemoveFirst(RemoveEach(deps, ns[..n]), ns[n])
  }

  /** Removing the names one by one leaves exactly the multiset difference. */
  lemma {:induction false} RemoveEachMultiset(deps: seq<string>, ns: seq<string>)
    ensures multiset(RemoveEach(deps, ns)) == multiset(deps) - multiset(ns)
  {
    if ns != [] {
      var n := |ns| - 1;
      RemoveEachMultiset(deps, ns[..n]);
      RemoveFirstMultiset(RemoveEach(deps, ns[..n]), ns[n]);
      assert ns == ns[..n] + [ns[n]];
      MultisetDiffStep(multiset(deps), multiset(ns[..n]), ns[n]);
    }
  }

  lemma MultisetDiffStep(a: multiset<string>, b: multiset<string>, x: string)
    ensures (a - b) - multiset{x} == a - (b + multiset{x})
  {
    forall y ensures ((a - b) - multiset{x})[y] == (a - (b + multiset{x}))[y] {
    }
  }

  /** The dependencies of a package are all met exactly when the names
      removed cover them, with multiplicity. */
  lemma RemoveEachEmpty(deps: seq<string>, ns: seq<string>)
    ensures RemoveEach(deps, ns) == [] <==> multiset(deps) <= multiset(ns)
  {
    var r := RemoveEach(deps, ns);
    RemoveEachMultiset(deps, ns);
    var a, b := multiset(deps), multiset(ns);
    if a <= b {
      forall y ensures (a - b)[y] == 0 {
        assert a[y] <= b[y];
      }
      assert a - b == multiset{};
    } else {
      var y :| a[y] > b[y];
      assert (a - b)[y] > 0;
      assert y in multiset(r);
    }
  }

  predicate Distinct(s: seq<nat>) {
    forall i, j :: 0 <= i < j < |s| ==> s[i] != s[j]
  }

  predicate Indices(s: seq<nat>, n: nat) {
    forall k :: 0 <= k < |s| ==> s[k] < n
  }

  /** `n.name.lower()` for each index in `order`. */
  function LoweredNames(packages: seq<Package>, order: seq<nat>): (r: seq<string>)
    requires Indices(order, |packages|)
    ensures |r| == |order|
  {
    seq(|order|, k requires 0 <= k < |order| => Lower(packages[order[k]].name))
  }

  lemma LoweredNamesAppend(packages: seq<Package>, order: seq<nat>, j: nat)
    requires Indices(order, |packages|) && j < |packages|
    ensures Indices(order + [j], |packages|)
    ensures LoweredNames(packages, order + [j]) == LoweredNames(packages, order) + [Lower(packages[j].name)]
  {
  }

  /** The indices of the packages with no dependency among the first `i`,
      in registration order: the initial queue `S`. */
  function Roots(packages: seq<Package>, i: nat): (r: seq<nat>)
    requires i <= |packages|
    ensures Indices(r, i)
  {
    if i == 0 then []
    else Roots(packages, i - 1) + (if packages[i - 1].dependencies == [] then [i - 1] else [])
  }

  /** The initial queue holds each position at most once, and exactly the
      positions whose package has no dependency. */
  lemma {:induction false} RootsSpec(packages: seq<Package>, i: nat)
    requires i <= |packages|
    ensures Distinct(Roots(packages, i)) && Increasing(Roots(packages, i))
    ensures forall j :: 0 <= j < i ==> (j in Roots(packages, i) <==> packages[j].dependencies == [])
  {
    RootsOrder(packages, i);
    IncreasingDistinct(Roots(packages, i));
  }

  lemma {:induction false} RootsOrder(packages: seq<Package>, i: nat)
    requires i <= |packages|
    ensures Increasing(Roots(packages, i))
    ensures forall j :: 0 <= j < i ==> (j in Roots(packages, i) <==> packages[j].dependencies == [])
  {
    if i > 0 {
      RootsOrder(packages, i - 1);
      var r := Roots(packages, i - 1);
      assert forall j :: j in r ==> j < i - 1;
      if packages[i - 1].dependencies == [] {
        IncreasingSnoc(r, i - 1);
      }
    }
  }

  /** `{p.name: p for p in packages}`: every name is a key, and each key
      maps to a package of that name. */
  function NameTable(packages: seq<Package>): (r: map<string, Package>)
    ensures forall j :: 0 <= j < |packages| ==> packages[j].name in r
    ensures forall n :: n in r ==> r[n].name == n
  {
    if packages == [] then map[]
    else
      var n := |packages| - 1;
      var before := NameTable(packages[..n]);
      assert forall j :: 0 <= j < n ==> packages[..n][j] == packages[j];
      before[packages[n].name := packages[n]]
  }

  /** Every entry of the table is one of the registered packages. */
  lemma {:induction false} NameTableFrom(packages: seq<Package>, name: string)
    requires name in NameTable(packages)
    ensures NameTable(packages)[name] in packages
  {
    var n := |packages| - 1;
    if name != packages[n].name {
      NameTableFrom(packages[..n], name);
      assert NameTable(packages[..n])[name] in packages[..n];
    }
  }

  /** The table maps a name to the LAST package registered under it. */
  lemma {:induction false} NameTableLast(packages: seq<Package>, j: nat)
    requires j < |packages|
    requires forall k :: j < k < |packages| ==> packages[k].name != packages[j].name
    ensures NameTable(packages)[packages[j].name] == packages[j]
  {
    var n := |packages| - 1;
    if j < n {
      var init := packages[..n];
      assert init[j] == packages[j];
      assert forall k :: j < k < n ==> init[k].name != init[j].name by {
        assert forall k :: j < k < n ==> init[k] == packages[k];
      }
      NameTableLast(init, j);
      assert packages[n].name != packages[j].name;
    }
  }

  /** With distinct names the reorder returns the original records. */
  lemma NameTableDistinct(packages: seq<Package>, j: nat)
    requires j < |packages|
    requires forall a, b :: 0 <= a < b < |packages| ==> packages[a].name != packages[b].name
    ensures NameTable(packages)[packages[j].name] == packages[j]
  {
    NameTableLast(packages, j);
  }

  /** `[p for p in G if len(p.dependencies) > 0]` over the first `i`
      packages, once the names `ns` have been removed. */
  function IncompleteUpTo(packages: seq<Package>, ns: seq<string>, i: nat): (r: seq<Package>)
    requires i <= |packages|
    ensures forall k :: 0 <= k < |r| ==> r[k].dependencies != []
  {
    if i == 0 then []
    else
      var rest := RemoveEach(packages[i - 1].dependencies, ns);
      IncompleteUpTo(packages, ns, i - 1) + (if rest != [] then [Package(packages[i - 1].name, rest)] else [])
  }

  /** Nothing is reported exactly when every list has been emptied. */
  lemma {:induction false} IncompleteEmpty(packages: seq<Package>, ns: seq<string>, i: nat)
    requires i <= |packages|
    ensures IncompleteUpTo(packages, ns, i) == [] <==>
      forall j :: 0 <= j < i ==> RemoveEach(packages[j].dependencies, ns) == []
  {
    if i > 0 {
      IncompleteEmpty(packages, ns, i - 1);
    }
  }

  function Incomplete(packages: seq<Package>, ns: seq<string>): seq<Package> {
    IncompleteUpTo(packages, ns, |packages|)
  }

  /** The indices below `n`. */
  function Range(n: nat): (r: set<nat>)
    ensures |r| == n && forall x: nat :: x in r <==> x < n
  {
    if n == 0 then {}
    else
      var r := Range(n - 1);
      assert n - 1 !in r;
      r + {n - 1}
  }

  function Elems(s: seq<nat>): (r: set<nat>)
    ensures forall x: nat :: x in r <==> x in s
  {
    set x | x in s
  }

  lemma {:induction false} DistinctCard(s: seq<nat>)
    requires Distinct(s)
    ensures |Elems(s)| == |s|
  {
    if s != [] {
      var n := |s| - 1;
      assert s == s[..n] + [s[n]];
      assert forall i, j :: 0 <= i < j < n ==> s[..n][i] == s[i] && s[..n][j] == s[j];
      DistinctCard(s[..n]);
      var front := Elems(s[..n]);
      assert Elems(s) == front + {s[n]};
      assert forall i :: 0 <= i < n ==> s[..n][i] != s[n];
      assert s[n] !in front;
    }
  }

  lemma {:induction false} SubsetCard(a: set<nat>, b: set<nat>)
    requires a <= b
    ensures |a| <= |b|
    ensures |a| == |b| ==> a == b
  {
    if a != {} {
      var x :| x in a;
      SubsetCard(a - {x}, b - {x});
    } else if b != {} {
      var y :| y in b;
      assert |b| >= 1;
    }
  }

  /** A repetition-free sequence of indices below `n` has at most `n`
      elements, and exactly `n` when it holds every index. */
  lemma IndicesBound(s: seq<nat>, n: nat)
    requires Distinct(s) && Indices(s, n)
    ensures |s| <= n
    ensures (forall j :: 0 <= j < n ==> j in s) <==> |s| == n
  {
    DistinctCard(s);
    var elems := Elems(s);
    assert elems <= Range(n);
    SubsetCard(elems, Range(n));
    if |s| == n {
      assert elems == Range(n);
      forall j | 0 <= j < n ensures j in s {
        assert j in Range(n);
        assert j in elems;
      }
    }
    if forall j :: 0 <= j < n ==> j in s {
      assert Range(n) <= elems;
      SubsetCard(Range(n), elems);
    }
  }

  /** A dependency written with an upper-case letter is never met: the
      names removed are all lower-cased, and dependency lists in `G` are
      never lower-cased. Such a package stays out of the order for good. */
  lemma MixedCaseDependencyNeverMet(packages: seq<Package>, order: seq<nat>, j: nat, k: nat)
    requires Indices(order, |packages|)
    requires j < |packages| && k < |packages[j].dependencies|
    requires Lower(packages[j].dependencies[k]) != packages[j].dependencies[k]
    ensures !(multiset(packages[j].dependencies) <= multiset(LoweredNames(packages, order)))
  {
    var d := packages[j].dependencies[k];
    var names := LoweredNames(packages, order);
    forall i | 0 <= i < |names| ensures names[i] != d {
      LowerIdempotent(packages[order[i]].name);
    }
    assert d in multiset(packages[j].dependencies);
    assert d !in multiset(names);
  }

  /** `pos` gives each node its position in `G`: in particular no node
      occurs twice. */
  predicate Positions(G: seq<Node>, pos: map<Node, nat>) {
    forall j :: 0 <= j < |G| ==> G[j] in pos && pos[G[j]] == j
  }

  /** Removing `key` empties a list exactly when the list is `[key]`. */
  lemma RemoveFirstEmpties(d: seq<string>, key: string)
    ensures (key in d && RemoveFirst(d, key) == []) <==> d == [key]
  {
    if key in d {
      if |d| == 1 {
        assert d[0] == key;
      }
    }
  }

  /** `G = [copy.deepcopy(p) for p in packages]`. */
  method CopyAll(packages: seq<Package>) returns (G: seq<Node>, ghost pos: map<Node, nat>)
    ensures |G| == |packages| && Positions(G, pos)
    ensures forall j :: 0 <= j < |G| ==>
      fresh(G[j]) && G[j].name == packages[j].name && G[j].dependencies == packages[j].dependencies
  {
    G := [];
    pos := map[];
    for i := 0 to |packages|
      invariant |G| == i && Positions(G, pos)
      invariant forall j :: 0 <= j < i ==>
        fresh(G[j]) && G[j].name == packages[j].name && G[j].dependencies == packages[j].dependencies
    {
      var node := new Node(packages[i].name, packages[i].dependencies);
      G := G + [node];
      pos := pos[node := i];
    }
  }

  /** `S = [copy.deepcopy(p) for p in G if len(p.dependencies)==0]`,
      followed by the lower-casing of the (empty) dependency lists of `S`. */
  method CopyRoots(G: seq<Node>, ghost packages: seq<Package>) returns (S: seq<Node>, ghost idxS: seq<nat>)
    requires |G| == |packages|
    requires forall j :: 0 <= j < |G| ==> G[j].dependencies == packages[j].dependencies
    requires forall j :: 0 <= j < |G| ==> G[j].name == packages[j].name
    ensures idxS == Roots(packages, |packages|) && |S| == |idxS|
    ensures forall k :: 0 <= k < |S| ==> fresh(S[k]) && S[k].name == packages[idxS[k]].name && S[k].dependencies == []
  {
    S := [];
    idxS := [];
    for i := 0 to |G|
      invariant idxS == Roots(packages, i) && |S| == |idxS|
      invariant forall k :: 0 <= k < |S| ==> fresh(S[k]) && S[k].name == packages[idxS[k]].name && S[k].dependencies == []
    {
      if |G[i].dependencies| == 0 {
        var copy := new Node(G[i].name, G[i].dependencies);
        S := S + [copy];
        idxS := idxS + [i];
      }
    }
    LowerQueued(S);
  }

  /** `for n in S: n.dependencies = [d.lower() for d in n.dependencies]`
      on nodes whose lists are empty: they stay empty. */
  method LowerQueued(S: seq<Node>)
    requires forall k :: 0 <= k < |S| ==> S[k].dependencies == []
    modifies set k | 0 <= k < |S| :: S[k]
    ensures forall k :: 0 <= k < |S| ==> S[k].dependencies == []
  {
    for k := 0 to |S|
      invariant forall q :: 0 <= q < |S| ==> S[q].dependencies == []
    {
      S[k].dependencies := LowerAll(S[k].dependencies);
    }
  }

  /** The positions below `i`, in increasing order, whose dependency list
      is exactly `[key]`: the nodes that releasing `key` empties. */
  function Emptied(deps: seq<seq<string>>, key: string, i: nat): (r: seq<nat>)
    requires i <= |deps|
    ensures Indices(r, i)
  {
    if i == 0 then []
    else Emptied(deps, key, i - 1) + (if deps[i - 1] == [key] then [i - 1] else [])
  }

  /** `Emptied` lists each emptied position once, in increasing order,
      and exactly those. */
  lemma {:induction false} EmptiedSpec(deps: seq<seq<string>>, key: string, i: nat)
    requires i <= |deps|
    ensures Distinct(Emptied(deps, key, i)) && Increasing(Emptied(deps, key, i))
    ensures forall j :: 0 <= j < i ==> (j in Emptied(deps, key, i) <==> deps[j] == [key])
  {
    EmptiedOrder(deps, key, i);
    IncreasingDistinct(Emptied(deps, key, i));
  }

  lemma {:induction false} EmptiedOrder(deps: seq<seq<string>>, key: string, i: nat)
    requires i <= |deps|
    ensures Increasing(Emptied(deps, key, i))
    ensures forall j :: 0 <= j < i ==> (j in Emptied(deps, key, i) <==> deps[j] == [key])
  {
    if i > 0 {
      EmptiedOrder(deps, key, i - 1);
      var r := Emptied(deps, key, i - 1);
      assert forall j :: j in r ==> j < i - 1;
      if deps[i - 1] == [key] {
        IncreasingSnoc(r, i - 1);
      }
    }
  }

  lemma IncreasingDistinct(s: seq<nat>)
    requires Increasing(s)
    ensures Distinct(s)
  {
  }

  /** The inner loop `for m in G`: `key` is removed from every list that
      holds it, and each list that becomes empty enqueues its node, in the
      order of `G`. */
  method Release(G: seq<Node>, key: string, ghost deps: seq<seq<string>>, ghost pos: map<Node, nat>) returns (queued: seq<Node>, ghost emptied: seq<nat>)
    requires |deps| == |G| && Positions(G, pos)
    requires forall j :: 0 <= j < |G| ==> G[j].dependencies == deps[j]
    modifies G
    ensures forall j :: 0 <= j < |G| ==> G[j].dependencies == RemoveFirst(deps[j], key)
    ensures Indices(emptied, |G|) && Distinct(emptied) && Increasing(emptied)
    ensures forall j :: 0 <= j < |G| ==> (j in emptied <==> deps[j] == [key])
    ensures |queued| == |emptied| && forall k :: 0 <= k < |queued| ==> queued[k] == G[emptied[k]]
  {
    queued := [];
    emptied := [];
    for mi := 0 to |G|
      invariant forall j :: 0 <= j < mi ==> G[j].dependencies == RemoveFirst(deps[j], key)
      invariant forall j :: mi <= j < |G| ==> G[j].dependencies == deps[j]
      invariant emptied == Emptied(deps, key, mi)
      invariant |queued| == |emptied| && forall k :: 0 <= k < |queued| ==> queued[k] == G[emptied[k]]
    {
      queued, emptied := ReleaseStep(G, key, deps, mi, queued, emptied);
    }
    EmptiedSpec(deps, key, |G|);
  }

  /** One iteration of the inner loop, on `G[mi]`: the node is enqueued
      exactly when its list was `[key]`. */
  method ReleaseStep(G: seq<Node>, key: string, ghost deps: seq<seq<string>>, mi: nat, queued: seq<Node>, ghost emptied: seq<nat>)
    returns (queued': seq<Node>, ghost emptied': seq<nat>)
    requires |deps| == |G| && mi < |G|
    requires G[mi].dependencies == deps[mi]
    requires emptied == Emptied(deps, key, mi)
    requires |queued| == |emptied| && forall k :: 0 <= k < |queued| ==> queued[k] == G[emptied[k]]
    modifies G[mi]
    ensures G[mi].dependencies == RemoveFirst(deps[mi], key)
    ensures emptied' == Emptied(deps, key, mi + 1)
    ensures queued' == if deps[mi] == [key] then queued + [G[mi]] else queued
    ensures |queued'| == |emptied'| && forall k :: 0 <= k < |queued'| ==> queued'[k] == G[emptied'[k]]
  {
    var m := G[mi];
    var becameEmpty := ReleaseOne(m, key);
    queued', emptied' := queued, emptied;
    if becameEmpty {
      queued' := queued + [m];
      emptied' := emptied + [mi];
    }
  }

  method ReleaseOne(m: Node, key: string) returns (becameEmpty: bool)
    modifies m
    ensures m.dependencies == RemoveFirst(old(m.dependencies), key)
    ensures becameEmpty <==> old(m.dependencies) == [key]
  {
    RemoveFirstEmpties(m.dependencies, key);
    becameEmpty := false;
    if key in m.dependencies {
      m.dependencies := RemoveFirst(m.dependencies, key);
      becameEmpty := |m.dependencies| == 0;
    }
  }

  /** `S` (or `L`) holds copies of the packages at the positions `idx`. */
  predicate Copies(S: seq<Node>, idx: seq<nat>, packages: seq<Package>) {
    |S| == |idx| && Indices(idx, |packages|) &&
    forall k :: 0 <= k < |S| ==> S[k].name == packages[idx[k]].name
  }

  lemma CopiesConcat(A: seq<Node>, ia: seq<nat>, B: seq<Node>, ib: seq<nat>, packages: seq<Package>)
    requires Copies(A, ia, packages) && Copies(B, ib, packages)
    ensures Copies(A + B, ia + ib, packages)
  {
  }

  /** Every package of `order` comes after all the packages its
      dependencies name, with multiplicity. */
  predicate Topological(packages: seq<Package>, order: seq<nat>) {
    Indices(order, |packages|) &&
    forall k :: 0 <= k < |order| ==>
      multiset(packages[order[k]].dependencies) <= multiset(LoweredNames(packages, order[..k]))
  }

  lemma TopologicalAppend(packages: seq<Package>, order: seq<nat>, j: nat)
    requires Topological(packages, order) && j < |packages|
    requires multiset(packages[j].dependencies) <= multiset(LoweredNames(packages, order))
    ensures Topological(packages, order + [j])
  {
    var order' := order + [j];
    assert order'[..|order|] == order;
    forall k | 0 <= k < |order|
      ensures order'[..k] == order[..k]
    {
    }
  }

  /** The dependency lists of the nodes of `G`, as values. */
  predicate Holds(G: seq<Node>, deps: seq<seq<string>>)
    reads G
  {
    |G| == |deps| && forall j :: 0 <= j < |G| ==> G[j].dependencies == deps[j]
  }

  /** The dependency lists are the original ones less `names`. */
  predicate Remaining(deps: seq<seq<string>>, packages: seq<Package>, names: seq<string>) {
    |deps| == |packages| &&
    forall j :: 0 <= j < |deps| ==> deps[j] == RemoveEach(packages[j].dependencies, names)
  }

  /** The positions in `seen` are exactly those whose list is empty. */
  predicate Settled(deps: seq<seq<string>>, seen: seq<nat>) {
    forall j :: 0 <= j < |deps| ==> (j in seen <==> deps[j] == [])
  }

  /** The lists once the inner loop has removed `key` from each. */
  function Released(deps: seq<seq<string>>, key: string): (r: seq<seq<string>>)
    ensures |r| == |deps| && forall j :: 0 <= j < |deps| ==> r[j] == RemoveFirst(deps[j], key)
  {
    seq(|deps|, j requires 0 <= j < |deps| => RemoveFirst(deps[j], key))
  }

  lemma RemoveEachSnoc(deps: seq<string>, ns: seq<string>, x: string)
    ensures RemoveEach(deps, ns + [x]) == RemoveFirst(RemoveEach(deps, ns), x)
  {
    assert (ns + [x])[..|ns|] == ns;
  }

  /** A list is empty after the removal of `key` exactly when it was empty
      or was `[key]`. */
  lemma RemoveFirstEmptyCases(d: seq<string>, key: string)
    ensures RemoveFirst(d, key) == [] <==> d == [] || d == [key]
  {
    RemoveFirstEmpties(d, key);
  }

  lemma DistinctConcat(a: seq<nat>, b: seq<nat>)
    requires Distinct(a) && Distinct(b)
    requires forall k :: 0 <= k < |b| ==> b[k] !in a
    ensures Distinct(a + b)
  {
    forall i, j | 0 <= i < j < |a + b|
      ensures (a + b)[i] != (a + b)[j]
    {
      if i < |a| && |a| <= j {
        assert (a + b)[j] == b[j - |a|];
      }
    }
  }

  /** Dequeuing the head `j` of the queue keeps the order topological:
      its list is empty, so all its dependencies are among the names
      already removed. */
  lemma DequeueKeepsOrder(packages: seq<Package>, deps: seq<seq<string>>, idxL: seq<nat>, j: nat)
    requires Topological(packages, idxL) && j < |packages|
    requires Remaining(deps, packages, LoweredNames(packages, idxL))
    requires deps[j] == []
    ensures Topological(packages, idxL + [j])
    ensures LoweredNames(packages, idxL + [j]) == LoweredNames(packages, idxL) + [Lower(packages[j].name)]
  {
    RemoveEachEmpty(packages[j].dependencies, LoweredNames(packages, idxL));
    TopologicalAppend(packages, idxL, j);
    LoweredNamesAppend(packages, idxL, j);
  }

  /** The inner loop for `key` keeps the lists equal to the original ones
      less the names removed, and the newly emptied nodes extend `seen`
      without repetition. */
  lemma ReleaseKeepsLists(packages: seq<Package>, deps: seq<seq<string>>, names: seq<string>, key: string,
                          seen: seq<nat>, emptied: seq<nat>)
    requires Remaining(deps, packages, names) && Settled(deps, seen)
    requires Indices(seen, |deps|) && Distinct(seen)
    requires Indices(emptied, |deps|) && Distinct(emptied)
    requires forall j :: 0 <= j < |deps| ==> (j in emptied <==> deps[j] == [key])
    ensures Remaining(Released(deps, key), packages, names + [key])
    ensures Settled(Released(deps, key), seen + emptied)
    ensures Indices(seen + emptied, |deps|) && Distinct(seen + emptied)
  {
    var deps' := Released(deps, key);
    forall k | 0 <= k < |emptied|
      ensures emptied[k] !in seen
    {
      assert deps[emptied[k]] == [key];
    }
    DistinctConcat(seen, emptied);
    forall j | 0 <= j < |deps|
      ensures deps'[j] == RemoveEach(packages[j].dependencies, names + [key])
      ensures j in seen + emptied <==> deps'[j] == []
    {
      RemoveEachSnoc(packages[j].dependencies, names, key);
      RemoveFirstEmptyCases(deps[j], key);
    }
  }

  /** The bookkeeping of one turn of the `while len(S)>0` loop on values:
      the head `idxS[0]` moves to the order, the positions emptied by the
      removal of its lowered name join the queue, and the lists stay the
      original ones less the names of the order. */
  lemma DequeueAndRelease(packages: seq<Package>, deps: seq<seq<string>>, idxS: seq<nat>, idxL: seq<nat>,
                          seen: seq<nat>, key: string, emptied: seq<nat>)
    requires |deps| == |packages| && |idxS| > 0
    requires Indices(idxS, |packages|) && Indices(idxL, |packages|)
    requires key == Lower(packages[idxS[0]].name)
    requires seen == idxL + idxS && Indices(seen, |packages|) && Distinct(seen)
    requires Topological(packages, idxL)
    requires Remaining(deps, packages, LoweredNames(packages, idxL)) && Settled(deps, seen)
    requires Indices(emptied, |deps|) && Distinct(emptied)
    requires forall j :: 0 <= j < |deps| ==> (j in emptied <==> deps[j] == [key])
    ensures (idxL + [idxS[0]]) + (idxS[1..] + emptied) == seen + emptied
    ensures Indices(seen + emptied, |packages|) && Distinct(seen + emptied)
    ensures Topological(packages, idxL + [idxS[0]])
    ensures Remaining(Released(deps, key), packages, LoweredNames(packages, idxL + [idxS[0]]))
    ensures Settled(Released(deps, key), seen + emptied)
  {
    var jn := idxS[0];
    ShiftHead(idxL, idxS, emptied);
    DequeueKeepsOrder(packages, deps, idxL, jn);
    ReleaseKeepsLists(packages, deps, LoweredNames(packages, idxL), key, seen, emptied);
  }

  /** Moving the head of the queue to the order leaves their
      concatenation unchanged. */
  lemma ShiftHead(idxL: seq<nat>, idxS: seq<nat>, emptied: seq<nat>)
    requires |idxS| > 0
    ensures idxS[0] in idxL + idxS
    ensures (idxL + [idxS[0]]) + (idxS[1..] + emptied) == (idxL + idxS) + emptied
  {
    assert (idxL + idxS)[|idxL|] == idxS[0];
    assert idxS == [idxS[0]] + idxS[1..];
  }

  /** One turn of the `while len(S)>0` loop: `n = S.pop(0)`,
      `L.append(n)`, then the inner loop for `n.name.lower()`. `seen`
      records every position that has been queued so far and `deps` the
      dependency lists of `G`. */
  method DrainStep(G: seq<Node>, ghost pos: map<Node, nat>, ghost packages: seq<Package>, ghost deps: seq<seq<string>>,
                   S: seq<Node>, ghost idxS: seq<nat>, L: seq<Node>, ghost idxL: seq<nat>, ghost seen: seq<nat>)
    returns (S': seq<Node>, ghost idxS': seq<nat>, L': seq<Node>, ghost idxL': seq<nat>,
             ghost seen': seq<nat>, ghost deps': seq<seq<string>>)
    requires |G| == |packages| && Positions(G, pos) && Holds(G, deps)
    requires forall j :: 0 <= j < |G| ==> G[j].name == packages[j].name
    requires |S| > 0
    requires Copies(S, idxS, packages) && Copies(L, idxL, packages)
    requires seen == idxL + idxS && Indices(seen, |packages|) && Distinct(seen)
    requires Topological(packages, idxL)
    requires Remaining(deps, packages, LoweredNames(packages, idxL)) && Settled(deps, seen)
    modifies G
    ensures Holds(G, deps')
    ensures Copies(S', idxS', packages) && Copies(L', idxL', packages)
    ensures seen' == idxL' + idxS' && Indices(seen', |packages|) && Distinct(seen')
    ensures seen <= seen' && idxL' == idxL + [idxS[0]]
    ensures Topological(packages, idxL')
    ensures Remaining(deps', packages, LoweredNames(packages, idxL')) && Settled(deps', seen')
  {
    var n := S[0];
    L' := L + [n];
    idxL' := idxL + [idxS[0]];
    CopiesConcat(L, idxL, [n], [idxS[0]], packages);
    var key := Lower(n.name);

    var queued;
    ghost var emptied;
    queued, emptied := Release(G, key, deps, pos);
    deps' := Released(deps, key);
    DequeueAndRelease(packages, deps, idxS, idxL, seen, key, emptied);

    S' := S[1..] + queued;
    idxS' := idxS[1..] + emptied;
    seen' := seen + emptied;
    CopiesConcat(S[1..], idxS[1..], queued, emptied, packages);
  }

  /** The `while len(S)>0` loop: dequeue, append to `L`, release. */
  method Drain(G: seq<Node>, ghost pos: map<Node, nat>, S0: seq<Node>, ghost packages: seq<Package>, ghost idxS0: seq<nat>)
    returns (L: seq<Node>, ghost idxL: seq<nat>, ghost deps: seq<seq<string>>)
    requires |G| == |packages| && Positions(G, pos)
    requires forall j :: 0 <= j < |G| ==> G[j].name == packages[j].name && G[j].dependencies == packages[j].dependencies
    requires idxS0 == Roots(packages, |packages|) && Copies(S0, idxS0, packages)
    modifies G
    ensures Distinct(idxL) && Topological(packages, idxL)
    ensures Roots(packages, |packages|) <= idxL
    ensures Holds(G, deps)
    ensures Remaining(deps, packages, LoweredNames(packages, idxL)) && Settled(deps, idxL)
    ensures Copies(L, idxL, packages)
  {
    RootsSpec(packages, |packages|);
    var S := S0;
    ghost var idxS := idxS0;
    ghost var seen := idxS0;
    deps := seq(|G|, j requires 0 <= j < |G| reads G => G[j].dependencies);
    L := [];
    idxL := [];
    while |S| > 0
      invariant forall j :: 0 <= j < |G| ==> G[j].name == packages[j].name
      invariant Holds(G, deps)
      invariant Copies(S, idxS, packages) && Copies(L, idxL, packages)
      invariant seen == idxL + idxS && Indices(seen, |packages|) && Distinct(seen)
      invariant Roots(packages, |packages|) <= seen
      invariant Topological(packages, idxL)
      invariant Remaining(deps, packages, LoweredNames(packages, idxL)) && Settled(deps, seen)
      decreases |packages| - |idxL|
    {
      IndicesBound(seen, |packages|);
      S, idxS, L, idxL, seen, deps := DrainStep(G, pos, packages, deps, S, idxS, L, idxL, seen);
    }
    assert seen == idxL;
  }

  /** `_packages = {p.name: p for p in packages}`. */
  method NameIndex(packages: seq<Package>) returns (table: map<string, Package>)
    ensures table == NameTable(packages)
  {
    table := map[];
    for i := 0 to |packages|
      invariant table == NameTable(packages[..i])
    {
      assert packages[..i + 1][..i] == packages[..i];
      table := table[packages[i].name := packages[i]];
    }
    assert packages[..|packages|] == packages;
  }

  /** The ordering at the end of the package builder. `G` holds copies of
      all packages and `S` copies of those without dependencies; a dequeued
      package's lower-cased name is removed from every dependency list in
      `G` that holds it, and a list that becomes empty enqueues its owner.
      `order` is the ghost record of which package each element of `L`
      copies. */
  method OrderPackages(packages: seq<Package>)
    returns (ordered: seq<Package>, incomplete: seq<Package>, exitCode: int, ghost order: seq<nat>)
    ensures Indices(order, |packages|) && Distinct(order)
    ensures Roots(packages, |packages|) <= order
    ensures forall k :: 0 <= k < |order| ==>
      multiset(packages[order[k]].dependencies) <= multiset(LoweredNames(packages, order[..k]))
    ensures forall j :: 0 <= j < |packages| ==>
      (j in order <==> multiset(packages[j].dependencies) <= multiset(LoweredNames(packages, order)))
    ensures |ordered| == |order|
    ensures forall k :: 0 <= k < |order| ==> ordered[k] == NameTable(packages)[packages[order[k]].name]
    ensures incomplete == Incomplete(packages, LoweredNames(packages, order))
    ensures exitCode == (if incomplete == [] then 0 else 13)
    ensures exitCode == 0 <==> |order| == |packages|
  {
    var G;
    ghost var pos;
    G, pos := CopyAll(packages);
    var S;
    ghost var idxS;
    S, idxS := CopyRoots(G, packages);
    var L;
    ghost var deps;
    L, order, deps := Drain(G, pos, S, packages, idxS);

    var table := NameIndex(packages);
    ordered := Reorder(L, table, packages, order);

    ghost var names := LoweredNames(packages, order);
    incomplete := Leftovers(G, deps, packages, names);
    exitCode := if |incomplete| > 0 then 13 else 0;
    OrderOutcome(packages, deps, order);
  }

  /** Once the queue is empty, the packages ordered are exactly those whose
      dependencies are all met, and nothing is reported incomplete exactly
      when every package was ordered. */
  lemma OrderOutcome(packages: seq<Package>, deps: seq<seq<string>>, order: seq<nat>)
    requires Indices(order, |packages|) && Distinct(order)
    requires Remaining(deps, packages, LoweredNames(packages, order)) && Settled(deps, order)
    ensures forall j :: 0 <= j < |packages| ==>
      (j in order <==> multiset(packages[j].dependencies) <= multiset(LoweredNames(packages, order)))
    ensures Incomplete(packages, LoweredNames(packages, order)) == [] <==> |order| == |packages|
  {
    var names := LoweredNames(packages, order);
    forall j | 0 <= j < |packages|
      ensures j in order <==> multiset(packages[j].dependencies) <= multiset(names)
    {
      RemoveEachEmpty(packages[j].dependencies, names);
    }
    IncompleteEmpty(packages, names, |packages|);
    IndicesBound(order, |packages|);
  }

  /** `packages = [_packages[p.name] for p in L]`. */
  method Reorder(L: seq<Node>, table: map<string, Package>, ghost packages: seq<Package>, ghost order: seq<nat>)
    returns (ordered: seq<Package>)
    requires Copies(L, order, packages) && table == NameTable(packages)
    ensures |ordered| == |order|
    ensures forall k :: 0 <= k < |order| ==> ordered[k] == NameTable(packages)[packages[order[k]].name]
  {
    ordered := [];
    for k := 0 to |L|
      invariant |ordered| == k
      invariant forall q :: 0 <= q < k ==> ordered[q] == table[packages[order[q]].name]
    {
      ordered := ordered + [table[L[k].name]];
    }
  }

  /** `incomplete_packages = [p for p in G if len(p.dependencies)>0]`. */
  method Leftovers(G: seq<Node>, ghost deps: seq<seq<string>>, ghost packages: seq<Package>, ghost names: seq<string>)
    returns (incomplete: seq<Package>)
    requires Holds(G, deps) && Remaining(deps, packages, names)
    requires forall j :: 0 <= j < |G| ==> G[j].name == packages[j].name
    ensures incomplete == Incomplete(packages, names)
  {
    incomplete := [];
    for i := 0 to |G|
      invariant incomplete == IncompleteUpTo(packages, names, i)
    {
      if |G[i].dependencies| > 0 {
        incomplete := incomplete + [Package(G[i].name, G[i].dependencies)];
      }
    }
  }
}
