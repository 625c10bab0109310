/** What of a row a save makes agree with its item, and lists of rows and items compared
    by it, whatever their order. */
module ItemViews {
  import opened ItemSync

  /** An item as far as a row must agree with it. */
  function View(it: Item, equips: set<int>): Item {
    if it.nameid in equips then it else it.(refine := 0, attribute := 0, card1 := 0, expire := 0)
  }

  lemma AgreesIsView(row: Item, it: Item, equips: set<int>)
    ensures Agrees(row, it, equips) <==> View(row, equips) == View(it, equips)
  {
  }

  /** Equipment agrees in every field, the rest in all but refine, attribute, card 1 and expiry. */
  lemma AgreesMeans(row: Item, it: Item, equips: set<int>)
    ensures Agrees(row, it, equips) <==>
      if it.nameid in equips then row == it
      else row == it.(refine := row.refine, attribute := row.attribute, card1 := row.card1, expire := row.expire)
  {
  }

  function Views(items: seq<Item>, equips: set<int>): (vs: seq<Item>)
    ensures |vs| == |items| && forall i :: 0 <= i < |items| ==> vs[i] == View(items[i], equips)
  {
    seq(|items|, i requires 0 <= i < |items| => View(items[i], equips))
  }

  // ------------------------------------------------------------ lists in any order

  lemma Cancel<T>(a: multiset<T>, b: multiset<T>, c: multiset<T>)
    ensures a + c == b + c <==> a == b
  {
    assert (a + c) - c == a && (b + c) - c == b;
  }

  lemma {:induction false} CountOfDistinct(a: seq<nat>, x: nat)
    requires Distinct(a)
    ensures multiset(a)[x] == if x in a then 1 else 0
    decreases |a|
  {
    if a != [] {
      CountOfDistinct(a[1..], x);
      assert a == [a[0]] + a[1..];
      assert a[0] !in a[1..];
    }
  }

  lemma SameElements(a: seq<nat>, b: seq<nat>)
    requires Distinct(a) && Distinct(b) && forall x :: x in a <==> x in b
    ensures multiset(a) == multiset(b)
  {
    forall x: nat ensures multiset(a)[x] == multiset(b)[x] {
      CountOfDistinct(a, x);
      CountOfDistinct(b, x);
    }
  }

  lemma DistinctInAnyOrder(a: seq<nat>, b: seq<nat>)
    requires Distinct(a) && multiset(a) == multiset(b)
    ensures Distinct(b) && forall x :: x in a <==> x in b
  {
    forall x ensures x in a <==> x in b {
      assert x in a <==> x in multiset(a);
      assert x in b <==> x in multiset(b);
    }
    forall i, j | 0 <= i < j < |b| ensures b[i] != b[j] {
      CountOfDistinct(a, b[j]);
      assert b == b[..j] + b[j..];
      assert b[..j][i] == b[i] && b[j..][0] == b[j];
    }
  }

  /** Distinct ids that all occur in a list are no more than the list. */
  lemma {:induction false} Pigeonhole(xs: seq<nat>, ys: seq<nat>)
    requires Distinct(xs) && forall k :: 0 <= k < |xs| ==> xs[k] in ys
    ensures |xs| <= |ys|
    decreases |xs|
  {
    if xs != [] {
      var k := SlotOf(ys, xs[0]);
      var rest := ys[..k] + ys[k + 1..];
      forall l | 0 <= l < |xs[1..]| ensures xs[1..][l] in rest {
        var m := SlotOf(ys, xs[l + 1]);
        assert rest[if m < k then m else m - 1] == xs[l + 1];
      }
      Pigeonhole(xs[1..], rest);
    }
  }

  function Image(f: map<nat, Item>, ks: seq<nat>): (vs: seq<Item>)
    requires forall j :: 0 <= j < |ks| ==> ks[j] in f
    ensures |vs| == |ks| && forall j :: 0 <= j < |ks| ==> vs[j] == f[ks[j]]
  {
    seq(|ks|, j requires 0 <= j < |ks| => f[ks[j]])
  }

  function Without<T>(ks: seq<T>, j: nat): seq<T>
    requires j < |ks|
  {
    ks[..j] + ks[j + 1..]
  }

  lemma WithoutAt<T>(s: seq<T>, j: nat)
    requires j < |s|
    ensures multiset(s) == multiset(Without(s, j)) + multiset{s[j]}
  {
    assert s == s[..j] + [s[j]] + s[j + 1..];
  }

  lemma WithoutOne(f: map<nat, Item>, ks: seq<nat>, j: nat)
    requires j < |ks| && forall l :: 0 <= l < |ks| ==> ks[l] in f
    ensures multiset(ks) == multiset(Without(ks, j)) + multiset{ks[j]}
    ensures multiset(Image(f, ks)) == multiset(Image(f, Without(ks, j))) + multiset{f[ks[j]]}
  {
    WithoutAt(ks, j);
    WithoutAt(Image(f, ks), j);
    assert Image(f, Without(ks, j)) == Without(Image(f, ks), j);
  }

  /** The order of the places does not matter. */
  lemma {:induction false} ImageInAnyOrder(f: map<nat, Item>, a: seq<nat>, b: seq<nat>)
    requires multiset(a) == multiset(b)
    requires (forall j :: 0 <= j < |a| ==> a[j] in f) && forall j :: 0 <= j < |b| ==> b[j] in f
    ensures multiset(Image(f, a)) == multiset(Image(f, b))
    decreases |a|
  {
    assert |multiset(a)| == |a| && |multiset(b)| == |b|;
    if a != [] {
      assert a[0] in multiset(b);
      var j := SlotOf(b, a[0]);
      WithoutOne(f, a, 0);
      WithoutOne(f, b, j);
      Cancel(multiset(Without(a, 0)), multiset(Without(b, j)), multiset{a[0]});
      ImageInAnyOrder(f, Without(a, 0), Without(b, j));
    }
  }

  lemma TailWithoutFirst(vs: seq<Item>)
    requires vs != []
    ensures multiset(vs) == multiset(vs[1..]) + multiset{vs[0]}
  {
    assert vs == [vs[0]] + vs[1..];
  }

  predicate Hold(f: map<nat, Item>, home: seq<nat>, vs: seq<Item>) {
    |home| == |vs| && forall i :: 0 <= i < |home| ==> home[i] in f && f[home[i]] == vs[i]
  }

  lemma HoldFirst(f: map<nat, Item>, k: nat, rest: seq<nat>, vs: seq<Item>)
    requires vs != [] && k in f && f[k] == vs[0] && Hold(f, rest, vs[1..])
    ensures Hold(f, [k] + rest, vs) && multiset([k] + rest) == multiset(rest) + multiset{k}
  {
  }

  /** Places can be ordered so that their values come in any given order. */
  lemma {:induction false} Arranged(f: map<nat, Item>, ks: seq<nat>, vs: seq<Item>) returns (home: seq<nat>)
    requires forall j :: 0 <= j < |ks| ==> ks[j] in f
    requires multiset(Image(f, ks)) == multiset(vs)
    ensures multiset(home) == multiset(ks) && Hold(f, home, vs)
    decreases |vs|
  {
    assert |multiset(Image(f, ks))| == |ks| && |multiset(vs)| == |vs|;
    if vs == [] {
      home := [];
    } else {
      var j := Holder(f, ks, vs[0]);
      WithoutOne(f, ks, j);
      TailWithoutFirst(vs);
      Cancel(multiset(Image(f, Without(ks, j))), multiset(vs[1..]), multiset{vs[0]});
      var rest := Arranged(f, Without(ks, j), vs[1..]);
      HoldFirst(f, ks[j], rest, vs);
      home := [ks[j]] + rest;
    }
  }

  lemma Holder(f: map<nat, Item>, ks: seq<nat>, v: Item) returns (j: nat)
    requires (forall j :: 0 <= j < |ks| ==> ks[j] in f) && v in multiset(Image(f, ks))
    ensures j < |ks| && f[ks[j]] == v
  {
    j :| j < |ks| && Image(f, ks)[j] == v;
  }

  function ViewOf(u: Table, equips: set<int>): map<nat, Item> { map id | id in u :: View(u[id].item, equips) }

  /** Being in step is a matter of how often each view occurs among the owner's rows. */
  lemma SyncedIsViews(u: Table, owner: int, items: seq<Item>, equips: set<int>, ids: seq<nat>)
    requires IsSelect(u, owner, ids) && forall k :: 0 <= k < |ids| ==> ids[k] in u
    ensures Synced(u, owner, items, equips) <==>
      multiset(Views(RowsOf(u, ids), equips)) == multiset(Views(items, equips))
  {
    var f := ViewOf(u, equips);
    assert Views(RowsOf(u, ids), equips) == Image(f, ids);
    if Synced(u, owner, items, equips) {
      var home :| SyncedBy(u, owner, items, equips, home);
      ViewsOfHomes(u, owner, items, equips, home);
      SameElements(home, ids);
      ImageInAnyOrder(f, home, ids);
    }
    if multiset(Image(f, ids)) == multiset(Views(items, equips)) {
      var home := Arranged(f, ids, Views(items, equips));
      DistinctInAnyOrder(ids, home);
      forall i | 0 <= i < |home| ensures Agrees(u[home[i]].item, items[i], equips) {
        AgreesIsView(u[home[i]].item, items[i], equips);
      }
      assert SyncedBy(u, owner, items, equips, home);
    }
  }

  lemma ViewsOfHomes(u: Table, owner: int, items: seq<Item>, equips: set<int>, home: seq<nat>)
    requires SyncedBy(u, owner, items, equips, home)
    ensures Image(ViewOf(u, equips), home) == Views(items, equips)
  {
    forall i | 0 <= i < |home| ensures ViewOf(u, equips)[home[i]] == View(items[i], equips) {
      AgreesIsView(u[home[i]].item, items[i], equips);
    }
  }

  // ------------------------------------------------------------------- parts of a list

  /** The places below n that are in the set. */
  function Where(n: nat, s: set<nat>): seq<nat> {
    if n == 0 then [] else Where(n - 1, s) + if n - 1 in s then [n - 1] else []
  }

  lemma {:induction false} WhereIs(n: nat, s: set<nat>)
    ensures Distinct(Where(n, s)) && Below(Where(n, s), n) && forall k :: k in Where(n, s) <==> k < n && k in s
  {
    if n > 0 {
      WhereIs(n - 1, s);
    }
  }

  function At(xs: seq<Item>, ks: seq<nat>): (ys: seq<Item>)
    requires Below(ks, |xs|)
    ensures |ys| == |ks| && forall j :: 0 <= j < |ks| ==> ys[j] == xs[ks[j]]
  {
    seq(|ks|, j requires 0 <= j < |ks| => xs[ks[j]])
  }

  predicate Below(ks: seq<nat>, n: nat) { forall j :: 0 <= j < |ks| ==> ks[j] < n }

  /** A list is its entries at some places and those at all others. */
  lemma {:induction false} Split(xs: seq<Item>, s: set<nat>, others: set<nat>, n: nat)
    requires n <= |xs| && forall k: nat :: k < n ==> (k in s <==> k !in others)
    ensures Below(Where(n, s), |xs|) && Below(Where(n, others), |xs|)
    ensures multiset(xs[..n]) == multiset(At(xs, Where(n, s))) + multiset(At(xs, Where(n, others)))
  {
    WhereIsBelow(n, s);
    WhereIsBelow(n, others);
    if n > 0 {
      Split(xs, s, others, n - 1);
      OneMore(xs, n);
      AtOneMore(xs, n, s);
      AtOneMore(xs, n, others);
      SumGrows(multiset(At(xs, Where(n - 1, s))), multiset(At(xs, Where(n - 1, others))), xs[n - 1]);
    }
  }

  lemma {:induction false} WhereIsBelow(n: nat, s: set<nat>)
    ensures Below(Where(n, s), n)
  {
    if n > 0 {
      WhereIsBelow(n - 1, s);
    }
  }

  lemma SumGrows<T>(a: multiset<T>, b: multiset<T>, x: T)
    ensures (a + multiset{x}) + (b + multiset{}) == (a + b) + multiset{x}
    ensures (a + multiset{}) + (b + multiset{x}) == (a + b) + multiset{x}
  {
  }

  lemma OneMore(xs: seq<Item>, n: nat)
    requires 0 < n <= |xs|
    ensures multiset(xs[..n]) == multiset(xs[..n - 1]) + multiset{xs[n - 1]}
  {
    assert xs[..n] == xs[..n - 1] + [xs[n - 1]];
  }

  lemma AtOneMore(xs: seq<Item>, n: nat, s: set<nat>)
    requires 0 < n <= |xs| && Below(Where(n - 1, s), |xs|) && Below(Where(n, s), |xs|)
    ensures multiset(At(xs, Where(n, s))) ==
      multiset(At(xs, Where(n - 1, s))) + if n - 1 in s then multiset{xs[n - 1]} else multiset{}
  {
    assert At(xs, Where(n, s)) == At(xs, Where(n - 1, s)) + if n - 1 in s then [xs[n - 1]] else [];
  }

  lemma AtInAnyOrder(xs: seq<Item>, a: seq<nat>, b: seq<nat>)
    requires Distinct(a) && Distinct(b) && (forall x :: x in a <==> x in b) && Below(a, |xs|) && Below(b, |xs|)
    ensures multiset(At(xs, a)) == multiset(At(xs, b))
  {
    var f := map k: nat | k < |xs| :: xs[k];
    SameElements(a, b);
    ImageInAnyOrder(f, a, b);
    assert At(xs, a) == Image(f, a) && At(xs, b) == Image(f, b);
  }

  // ------------------------------------------------------------------ counting like items

  /** How many of them are the same item as this one, to the comparison. */
  function CountLike(xs: seq<Item>, it: Item): nat
    decreases |xs|
  {
    if xs == [] then 0
    else CountLike(xs[..|xs| - 1], it) + if Matches(xs[|xs| - 1], it) then 1 else 0
  }

  lemma {:induction false} CountLikeSum(xs: seq<Item>, ys: seq<Item>, it: Item)
    ensures CountLike(xs + ys, it) == CountLike(xs, it) + CountLike(ys, it)
    decreases |ys|
  {
    if ys == [] {
      assert xs + ys == xs;
    } else {
      var n := |ys| - 1;
      assert (xs + ys)[..|xs + ys| - 1] == xs + ys[..n];
      CountLikeSum(xs, ys[..n], it);
    }
  }

  lemma CountLikeOne(it: Item, like: Item)
    ensures CountLike([it], like) == if Matches(it, like) then 1 else 0
  {
    assert [it][..0] == [];
  }

  lemma LeaveOut(xs: seq<Item>, j: nat, it: Item)
    requires j < |xs|
    ensures var rest := xs[..j] + xs[j + 1..];
      && CountLike(xs, it) == CountLike(rest, it) + (if Matches(xs[j], it) then 1 else 0)
      && multiset(xs) == multiset(rest) + multiset{xs[j]}
  {
    assert xs == xs[..j] + ([xs[j]] + xs[j + 1..]);
    CountLikeSum(xs[..j], [xs[j]] + xs[j + 1..], it);
    CountLikeSum([xs[j]], xs[j + 1..], it);
    CountLikeSum(xs[..j], xs[j + 1..], it);
    CountLikeOne(xs[j], it);
  }

  /** It does not depend on the order. */
  lemma {:induction false} CountLikeInAnyOrder(xs: seq<Item>, ys: seq<Item>, it: Item)
    requires multiset(xs) == multiset(ys)
    ensures CountLike(xs, it) == CountLike(ys, it)
    decreases |xs|
  {
    assert |multiset(xs)| == |xs| && |multiset(ys)| == |ys|;
    if xs != [] {
      assert xs[0] in multiset(ys);
      var j: nat :| j < |ys| && ys[j] == xs[0];
      var left, right := xs[..0] + xs[1..], ys[..j] + ys[j + 1..];
      LeaveOut(xs, 0, it);
      LeaveOut(ys, j, it);
      Cancel(multiset(left), multiset(right), multiset{xs[0]});
      CountLikeInAnyOrder(left, right, it);
    }
  }

  lemma {:induction false} CountLikeOfViews(xs: seq<Item>, equips: set<int>, it: Item)
    ensures CountLike(Views(xs, equips), it) == CountLike(xs, it)
    decreases |xs|
  {
    if xs != [] {
      var n := |xs| - 1;
      CountLikeOfViews(xs[..n], equips, it);
      assert Views(xs, equips)[..n] == Views(xs[..n], equips);
    }
  }

  function LikeAt(xs: seq<Item>, s: set<nat>, it: Item): set<nat> {
    set k: nat | k < |xs| && k in s && Matches(xs[k], it)
  }

  lemma {:induction false} CountLikeAt(xs: seq<Item>, n: nat, s: set<nat>, it: Item)
    requires n <= |xs|
    ensures Below(Where(n, s), |xs|)
    ensures CountLike(At(xs, Where(n, s)), it) == |Where(n, LikeAt(xs, s, it))|
  {
    WhereIsBelow(n, s);
    if n > 0 {
      CountLikeAt(xs, n - 1, s, it);
      var more := if n - 1 in s then [xs[n - 1]] else [];
      WhereIsBelow(n - 1, s);
      assert At(xs, Where(n, s)) == At(xs, Where(n - 1, s)) + more;
      CountLikeSum(At(xs, Where(n - 1, s)), more, it);
      CountLikeOne(xs[n - 1], it);
    }
  }
}
