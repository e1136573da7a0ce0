/** The generated file set: a Python `dict` from file name to file content.
    A dict keeps its keys unique and remembers insertion order, and publishing
    iterates that order, so the model is a sequence of entries with unique
    names. Assigning to an existing key keeps its position and replaces its
    value; assigning to a new key appends it. */
module FileSet {
  import opened Base

  datatype Entry = Entry(name: string, content: string)

  /** The keys of the dict, in iteration order. */
  function Names(fs: seq<Entry>): (r: seq<string>)
    ensures |r| == |fs|
    ensures forall i :: 0 <= i < |fs| ==> r[i] == fs[i].name
  {
    seq(|fs|, i requires 0 <= i < |fs| => fs[i].name)
  }

  predicate UniqueNames(fs: seq<Entry>)
  {
    forall i, j :: 0 <= i < j < |fs| ==> fs[i].name != fs[j].name
  }

  /** The position of the first occurrence of `n` in `xs`. */
  function IndexOf(xs: seq<string>, n: string): (k: nat)
    requires n in xs
    ensures k < |xs| && xs[k] == n
    ensures forall j :: 0 <= j < k ==> xs[j] != n
  {
    if xs[0] == n then 0 else 1 + IndexOf(xs[1..], n)
  }

  lemma IndexOfAppend(xs: seq<string>, y: string, n: string)
    requires n in xs
    ensures IndexOf(xs + [y], n) == IndexOf(xs, n)
  {
    var k := IndexOf(xs, n);
    assert (xs + [y])[k] == xs[k];
    var k' := IndexOf(xs + [y], n);
    assert k' <= k;
  }

  /** `d.get(n)`: the content stored under `n`, if any. */
  function Get(fs: seq<Entry>, n: string): Option<string>
  {
    if n in Names(fs) then Some(fs[IndexOf(Names(fs), n)].content) else None
  }

  lemma GetUnique(fs: seq<Entry>, i: nat)
    requires UniqueNames(fs) && i < |fs|
    ensures Get(fs, fs[i].name) == Some(fs[i].content)
  {
    assert Names(fs)[i] == fs[i].name;
    var k := IndexOf(Names(fs), fs[i].name);
    assert !(k < i);
  }

  /** `d[n] = v`: afterwards `n` holds `v`, every other name holds what it
      held before, the names stay unique, and `n` keeps its position when it
      was already present and is appended otherwise. */
  function Assign(fs: seq<Entry>, n: string, v: string): (r: seq<Entry>)
    requires UniqueNames(fs)
    ensures UniqueNames(r)
    ensures Names(r) == if n in Names(fs) then Names(fs) else Names(fs) + [n]
    ensures Get(r, n) == Some(v)
    ensures forall m :: m != n ==> Get(r, m) == Get(fs, m)
  {
    if n in Names(fs) then
      var k := IndexOf(Names(fs), n);
      var r := fs[k := Entry(n, v)];
      assert Names(r) == Names(fs);
      GetUnique(r, k);
      r
    else
      var r := fs + [Entry(n, v)];
      assert Names(r) == Names(fs) + [n];
      GetUnique(r, |fs|);
      forall m | m != n && m in Names(fs)
        ensures Get(r, m) == Get(fs, m)
      {
        IndexOfAppend(Names(fs), n, m);
      }
      r
  }

  /** `dict(ps)` built by assigning the pairs one after another, the way the
      extractor's loop fills its dict. */
  function FromPairs(ps: seq<Entry>): (r: seq<Entry>)
    ensures UniqueNames(r)
    decreases |ps|
  {
    if ps == [] then []
    else
      var last := ps[|ps| - 1];
      Assign(FromPairs(ps[..|ps| - 1]), last.name, last.content)
  }

  /** The dict built from a list of pairs holds exactly the list's names. */
  lemma {:induction false} FromPairsMembers(ps: seq<Entry>)
    ensures forall n :: n in Names(FromPairs(ps)) <==> n in Names(ps)
    decreases |ps|
  {
    if ps != [] {
      var init := ps[..|ps| - 1];
      var last := ps[|ps| - 1];
      assert Names(ps) == Names(init) + [last.name];
      FromPairsMembers(init);
    }
  }

  /** Every name of `r` occurs among the names of `ps`, and `r` lists the
      names in the order of their first occurrence in `ps`. */
  predicate FirstAppearanceOrder(r: seq<Entry>, ps: seq<Entry>)
  {
    && (forall i :: 0 <= i < |r| ==> r[i].name in Names(ps))
    && (forall p, q :: 0 <= p < q < |r| && r[p].name in Names(ps) && r[q].name in Names(ps) ==>
          IndexOf(Names(ps), r[p].name) < IndexOf(Names(ps), r[q].name))
  }

  /** The dict built from a list of pairs orders its names by their first
      appearance in the list. */
  lemma {:induction false} FromPairsOrder(ps: seq<Entry>)
    ensures FirstAppearanceOrder(FromPairs(ps), ps)
    decreases |ps|
  {
    if ps != [] {
      var init := ps[..|ps| - 1];
      var last := ps[|ps| - 1];
      assert ps == init + [last];
      FromPairsOrder(init);
      FromPairsMembers(init);
      OrderAfterAssign(init, last, FromPairs(init), FromPairs(ps));
    }
  }

  /** Assigning one more pair keeps the dict in first-appearance order. */
  lemma OrderAfterAssign(init: seq<Entry>, last: Entry, d: seq<Entry>, r: seq<Entry>)
    requires UniqueNames(d) && r == Assign(d, last.name, last.content)
    requires forall n :: n in Names(d) <==> n in Names(init)
    requires FirstAppearanceOrder(d, init)
    ensures FirstAppearanceOrder(r, init + [last])
  {
    assert Names(init + [last]) == Names(init) + [last.name];
    forall i | 0 <= i < |r|
      ensures r[i].name in Names(init + [last])
    {
      assert Names(r)[i] == r[i].name;
    }
    forall p, q | 0 <= p < q < |r|
      ensures r[p].name in Names(init + [last]) && r[q].name in Names(init + [last])
      ensures IndexOf(Names(init + [last]), r[p].name) < IndexOf(Names(init + [last]), r[q].name)
    {
      OrderStep(init, last, d, r, p, q);
    }
  }

  lemma OrderStep(init: seq<Entry>, last: Entry, d: seq<Entry>, r: seq<Entry>, p: nat, q: nat)
    requires UniqueNames(d) && r == Assign(d, last.name, last.content)
    requires forall n :: n in Names(d) <==> n in Names(init)
    requires FirstAppearanceOrder(d, init)
    requires p < q < |r|
    ensures r[p].name in Names(init + [last]) && r[q].name in Names(init + [last])
    ensures IndexOf(Names(init + [last]), r[p].name) < IndexOf(Names(init + [last]), r[q].name)
  {
    assert Names(init + [last]) == Names(init) + [last.name];
    assert Names(r)[p] == r[p].name && Names(r)[q] == r[q].name;
    assert Names(r)[p] == Names(d)[p] && d[p].name in Names(init);
    IndexOfAppend(Names(init), last.name, r[p].name);
    if q < |d| {
      assert Names(r)[q] == Names(d)[q];
      IndexOfAppend(Names(init), last.name, r[q].name);
    } else {
      assert r[q].name == last.name && last.name !in Names(init);
      assert IndexOf(Names(init + [last]), last.name) == |init|;
    }
  }

  /** Each name of the dict built from a list of pairs maps to the content of
      the LAST pair carrying that name. */
  lemma {:induction false} FromPairsValues(ps: seq<Entry>, j: nat)
    requires j < |ps|
    requires forall k :: j < k < |ps| ==> ps[k].name != ps[j].name
    ensures Get(FromPairs(ps), ps[j].name) == Some(ps[j].content)
    decreases |ps|
  {
    var init := ps[..|ps| - 1];
    var last := ps[|ps| - 1];
    if j < |ps| - 1 {
      assert ps[j] == init[j];
      forall k | j < k < |init|
        ensures init[k].name != init[j].name
      {
        assert init[k] == ps[k];
      }
      FromPairsValues(init, j);
    }
  }

  /** Pairs whose names are already distinct build a dict that lists them
      exactly as given. */
  lemma {:induction false} FromPairsDistinct(ps: seq<Entry>)
    requires UniqueNames(ps)
    ensures FromPairs(ps) == ps
    decreases |ps|
  {
    if ps != [] {
      var init := ps[..|ps| - 1];
      var last := ps[|ps| - 1];
      assert UniqueNames(init) by {
        forall a, b | 0 <= a < b < |init|
          ensures init[a].name != init[b].name
        {
          assert init[a] == ps[a] && init[b] == ps[b];
        }
      }
      FromPairsDistinct(init);
      assert last.name !in Names(init) by {
        forall k | 0 <= k < |init|
          ensures Names(init)[k] != last.name
        {
          assert init[k] == ps[k];
        }
      }
      assert FromPairs(ps) == Assign(init, last.name, last.content);
      assert Assign(init, last.name, last.content) == init + [last];
      assert init + [last] == ps;
    }
  }
}
