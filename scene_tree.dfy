/**
 * The scene tree of App.js: an ordered forest of elements, each owning the
 * ordered list of its children. Lookup and removal search depth-first in
 * pre-order and act on the first element whose id matches.
 */
module SceneTree {
  import opened Wrappers
  import opened Properties

  datatype Element = Element(id: int, kind: Kind, props: Props, children: seq<Element>)

  /** The ids of a forest, in pre-order. */
  function Ids(f: seq<Element>): seq<int> {
    if f == [] then [] else [f[0].id] + Ids(f[0].children) + Ids(f[1..])
  }

  /** No id occurs twice. */
  ghost predicate Distinct(s: seq<int>) {
    forall x :: multiset(s)[x] <= 1
  }

  /**
   * One line of the pre-order listing of a forest: an element without its
   * children, together with the id of the element that owns it (None for
   * the root list).
   */
  datatype Entry = Entry(parent: Option<int>, id: int, kind: Kind, props: Props)

  function EntryIds(es: seq<Entry>): seq<int> {
    seq(|es|, i requires 0 <= i < |es| => es[i].id)
  }

  /**
   * The pre-order listing of `f`, whose top-level elements are owned by
   * `parent`. Together with the order it records every ownership link, so
   * it determines the forest when ids are distinct.
   */
  function Entries(f: seq<Element>, parent: Option<int>): (es: seq<Entry>)
    ensures EntryIds(es) == Ids(f)
  {
    if f == [] then []
    else
      var es := [Entry(parent, f[0].id, f[0].kind, f[0].props)]
        + Entries(f[0].children, Some(f[0].id)) + Entries(f[1..], parent);
      assert EntryIds(es) == [f[0].id] + Ids(f[0].children) + Ids(f[1..]);
      es
  }

  /** The position of the first occurrence of `x`. */
  function IndexOf(s: seq<int>, x: int): (k: nat)
    requires x in s
    ensures k < |s| && s[k] == x
  {
    if s[0] == x then 0 else 1 + IndexOf(s[1..], x)
  }

  /** No earlier position holds `x`. */
  lemma {:induction false} IndexOfFirst(s: seq<int>, x: int)
    requires x in s
    ensures forall j :: 0 <= j < IndexOf(s, x) ==> s[j] != x
  {
    if s[0] != x {
      IndexOfFirst(s[1..], x);
    }
  }

  /** `findElementById`: the first element in pre-order with id `id`. */
  function Find(f: seq<Element>, id: int): (r: Option<Element>)
    ensures r.Some? ==> r.value.id == id
    ensures r.Some? <==> id in Ids(f)
  {
    if f == [] then None
    else if f[0].id == id then Some(f[0])
    else
      match Find(f[0].children, id)
      case Some(e) => Some(e)
      case None => Find(f[1..], id)
  }

  /**
   * `removeElementFromTree`: detaches the first element with id `id` from
   * the sibling list that holds it and returns it, with its subtree, beside
   * the forest that remains.
   */
  function Remove(f: seq<Element>, id: int): (r: (Option<Element>, seq<Element>))
    ensures r.0 == Find(f, id)
    ensures r.0.None? ==> r.1 == f
  {
    if f == [] then (None, [])
    else if f[0].id == id then (Some(f[0]), f[1..])
    else
      var (removed, children) := Remove(f[0].children, id);
      if removed.Some? then (removed, [f[0].(children := children)] + f[1..])
      else
        var (removed', rest) := Remove(f[1..], id);
        assert [f[0]] + f[1..] == f;
        (removed', [f[0]] + rest)
  }

  /**
   * The forest in which the first element with id `id` (the one `Find`
   * returns, the object the source mutates) is replaced by `x`.
   */
  function ReplaceFirst(f: seq<Element>, id: int, x: Element): (r: seq<Element>)
    ensures id !in Ids(f) ==> r == f
  {
    if f == [] then []
    else if f[0].id == id then [x] + f[1..]
    else if id in Ids(f[0].children) then [f[0].(children := ReplaceFirst(f[0].children, id, x))] + f[1..]
    else
      assert [f[0]] + f[1..] == f;
      [f[0]] + ReplaceFirst(f[1..], id, x)
  }

  // ----- sequence facts -----

  lemma {:induction false} IdsConcat(a: seq<Element>, b: seq<Element>)
    ensures Ids(a + b) == Ids(a) + Ids(b)
  {
    if a == [] {
      assert a + b == b;
    } else {
      assert (a + b)[0] == a[0];
      assert (a + b)[1..] == a[1..] + b;
      IdsConcat(a[1..], b);
    }
  }

  lemma {:induction false} EntriesConcat(a: seq<Element>, b: seq<Element>, parent: Option<int>)
    ensures Entries(a + b, parent) == Entries(a, parent) + Entries(b, parent)
  {
    if a == [] {
      assert a + b == b;
    } else {
      assert (a + b)[0] == a[0];
      assert (a + b)[1..] == a[1..] + b;
      EntriesConcat(a[1..], b, parent);
    }
  }

  lemma {:induction false} IndexOfConcat(a: seq<int>, b: seq<int>, x: int)
    requires x in a + b
    ensures x in a ==> IndexOf(a + b, x) == IndexOf(a, x)
    ensures x !in a ==> IndexOf(a + b, x) == |a| + IndexOf(b, x)
  {
    var k := IndexOf(a + b, x);
    IndexOfFirst(a + b, x);
    if x in a {
      var j := IndexOf(a, x);
      IndexOfFirst(a, x);
      assert (a + b)[j] == x;
    } else {
      assert x in b;
      var j := IndexOf(b, x);
      IndexOfFirst(b, x);
      assert (a + b)[|a| + j] == x;
      assert forall i :: 0 <= i < |a| ==> (a + b)[i] == a[i];
    }
  }

  /** A one-element forest lists the element, then its subtree. */
  lemma {:induction false} SingletonEntries(e: Element, parent: Option<int>)
    ensures Entries([e], parent) == [Entry(parent, e.id, e.kind, e.props)] + Entries(e.children, Some(e.id))
    ensures Ids([e]) == [e.id] + Ids(e.children)
  {
    assert [e][1..] == [];
  }

  /** Where the first match sits among the ids of a forest that does not start with it. */
  lemma {:induction false} IndexPastRoot(f: seq<Element>, id: int)
    requires f != [] && f[0].id != id && id in Ids(f)
    ensures id in Ids(f[0].children) ==> IndexOf(Ids(f), id) == 1 + IndexOf(Ids(f[0].children), id)
    ensures id !in Ids(f[0].children) ==>
      id in Ids(f[1..]) && IndexOf(Ids(f), id) == 1 + |Ids(f[0].children)| + IndexOf(Ids(f[1..]), id)
  {
    var s := Ids(f);
    assert s[1..] == Ids(f[0].children) + Ids(f[1..]);
    IndexOfConcat(Ids(f[0].children), Ids(f[1..]), id);
  }

  // ----- lookup -----

  /** The lines of `E` from position `k` on begin with the listing of `e` and its subtree. */
  ghost predicate SubtreeAt(E: seq<Entry>, k: nat, e: Element) {
    k + |Ids([e])| <= |E| && E[k..k + |Ids([e])|] == Entries([e], E[k].parent)
  }

  /**
   * `Find` returns the element whose line comes first, in the pre-order
   * listing, among those carrying `id`; the lines that follow it are
   * exactly its own subtree.
   */
  lemma {:induction false} FindFirstInPreorder(f: seq<Element>, id: int, parent: Option<int>)
    requires id in Ids(f)
    ensures SubtreeAt(Entries(f, parent), IndexOf(Ids(f), id), Find(f, id).value)
    decreases f, 1
  {
    if f[0].id == id {
      FoundAtRoot(f, parent);
    } else if id in Ids(f[0].children) {
      FoundBelowRoot(f, id, parent);
    } else {
      FoundInTail(f, id, parent);
    }
  }

  /** The pre-order listing of a non-empty forest: its first element, that element's subtree, the rest. */
  lemma {:induction false} EntriesCons(f: seq<Element>, parent: Option<int>)
    requires f != []
    ensures Entries(f, parent)
         == [Entry(parent, f[0].id, f[0].kind, f[0].props)] + Entries(f[0].children, Some(f[0].id)) + Entries(f[1..], parent)
    ensures |Entries(f[0].children, Some(f[0].id))| == |Ids(f[0].children)|
  {
  }

  lemma {:induction false} FoundAtRoot(f: seq<Element>, parent: Option<int>)
    requires f != []
    ensures SubtreeAt(Entries(f, parent), 0, f[0])
  {
    EntriesCons(f, parent);
    SingletonEntries(f[0], parent);
    var L := [Entry(parent, f[0].id, f[0].kind, f[0].props)];
    var E := Entries(f, parent);
    assert E[0..1 + |Ids(f[0].children)|] == L + Entries(f[0].children, Some(f[0].id));
  }

  lemma {:induction false} FoundBelowRoot(f: seq<Element>, id: int, parent: Option<int>)
    requires f != [] && f[0].id != id && id in Ids(f[0].children)
    ensures SubtreeAt(Entries(f, parent), IndexOf(Ids(f), id), Find(f, id).value)
    decreases f, 0
  {
    IndexPastRoot(f, id);
    EntriesCons(f, parent);
    var e := Find(f[0].children, id).value;
    assert Find(f, id) == Some(e);
    FindFirstInPreorder(f[0].children, id, Some(f[0].id));
    var L := [Entry(parent, f[0].id, f[0].kind, f[0].props)];
    SubtreeShift(L, Entries(f[0].children, Some(f[0].id)), Entries(f[1..], parent), IndexOf(Ids(f[0].children), id), e,
                 Entries(f, parent), IndexOf(Ids(f), id), Find(f, id).value);
  }

  lemma {:induction false} FoundInTail(f: seq<Element>, id: int, parent: Option<int>)
    requires f != [] && f[0].id != id && id !in Ids(f[0].children) && id in Ids(f)
    ensures SubtreeAt(Entries(f, parent), IndexOf(Ids(f), id), Find(f, id).value)
    decreases f, 0
  {
    IndexPastRoot(f, id);
    EntriesCons(f, parent);
    var e := Find(f[1..], id).value;
    FindInTail(f, id);
    FindFirstInPreorder(f[1..], id, parent);
    var A := [Entry(parent, f[0].id, f[0].kind, f[0].props)] + Entries(f[0].children, Some(f[0].id));
    var k := IndexOf(Ids(f[1..]), id);
    SubtreeAfterEq(A, Entries(f[1..], parent), k, e, Entries(f, parent), IndexOf(Ids(f), id), Find(f, id).value);
  }

  /** Past a first element whose subtree does not hold the id, lookup continues in the rest. */
  lemma {:induction false} FindInTail(f: seq<Element>, id: int)
    requires f != [] && f[0].id != id && id !in Ids(f[0].children)
    ensures Find(f, id) == Find(f[1..], id)
  {
  }

  /** A subtree listed inside a part stays listed, shifted, inside the whole. */
  lemma {:induction false} SubtreeShift(a: seq<Entry>, b: seq<Entry>, c: seq<Entry>, k: nat, e: Element, E: seq<Entry>, k': nat, e': Element)
    requires SubtreeAt(b, k, e) && a + b + c == E && |a| + k == k' && e == e'
    ensures SubtreeAt(E, k', e')
  {
    SubtreeBefore(b, c, k, e);
    SubtreeAfter(a, b + c, k, e);
    ConcatAssoc(a, b, c);
  }

  lemma {:induction false} SubtreeAfter(a: seq<Entry>, b: seq<Entry>, k: nat, e: Element)
    requires SubtreeAt(b, k, e)
    ensures SubtreeAt(a + b, |a| + k, e)
  {
    SliceAfter(a, b, k, k + |Ids([e])|);
  }

  /** A subtree listed in a suffix stays listed, shifted, in the whole. */
  lemma {:induction false} SubtreeAfterEq(a: seq<Entry>, b: seq<Entry>, k: nat, e: Element, E: seq<Entry>, k': nat, e': Element)
    requires SubtreeAt(b, k, e) && a + b == E && |a| + k == k' && e == e'
    ensures SubtreeAt(E, k', e')
  {
    SubtreeAfter(a, b, k, e);
  }

  lemma {:induction false} SubtreeBefore(b: seq<Entry>, c: seq<Entry>, k: nat, e: Element)
    requires SubtreeAt(b, k, e)
    ensures SubtreeAt(b + c, k, e)
  {
    SliceBefore(b, c, k, k + |Ids([e])|);
  }

  lemma SliceAfter<T>(a: seq<T>, b: seq<T>, i: nat, j: nat)
    requires i < j <= |b|
    ensures (a + b)[|a| + i] == b[i] && (a + b)[|a| + i..|a| + j] == b[i..j]
  {
  }

  lemma SliceBefore<T>(b: seq<T>, c: seq<T>, i: nat, j: nat)
    requires i < j <= |b|
    ensures (b + c)[i] == b[i] && (b + c)[i..j] == b[i..j]
  {
  }

  lemma ConcatAssoc<T>(a: seq<T>, b: seq<T>, c: seq<T>)
    ensures a + (b + c) == a + b + c
  {
  }

  // ----- removal and replacement -----

  /** `s` with the `n` items from position `k` on replaced by `x`. */
  function Splice<T>(s: seq<T>, k: nat, n: nat, x: seq<T>): seq<T>
    requires k + n <= |s|
  {
    s[..k] + x + s[k + n..]
  }

  /** Splicing inside a part of a concatenation splices the whole at the shifted position. */
  lemma {:induction false} SpliceShift<T>(a: seq<T>, b: seq<T>, c: seq<T>, k': nat, n: nat, x: seq<T>,
                                        s: seq<T>, k: nat, rb: seq<T>, r: seq<T>)
    requires k' + n <= |b| && k' < |b|
    requires s == a + b + c && k == |a| + k' && rb == Splice(b, k', n, x) && r == a + rb + c
    ensures k + n <= |s| && r == Splice(s, k, n, x) && s[k] == b[k']
  {
    assert (a + b + c)[..|a| + k'] == a + b[..k'];
    assert (a + b + c)[|a| + k' + n..] == b[k' + n..] + c;
  }

  /** Splicing the second part of a concatenation splices the whole at the shifted position. */
  lemma {:induction false} SpliceShiftTail<T>(a: seq<T>, b: seq<T>, k': nat, n: nat, x: seq<T>,
                                            s: seq<T>, k: nat, rb: seq<T>, r: seq<T>)
    requires k' + n <= |b| && k' < |b|
    requires s == a + b && k == |a| + k' && rb == Splice(b, k', n, x) && r == a + rb
    ensures k + n <= |s| && r == Splice(s, k, n, x) && s[k] == b[k']
  {
    assert (a + b)[..|a| + k'] == a + b[..k'];
    assert (a + b)[|a| + k' + n..] == b[k' + n..];
  }

  lemma {:induction false} EntryIdsSplice(E: seq<Entry>, k: nat, n: nat, x: seq<Entry>)
    requires k + n <= |E|
    ensures EntryIds(Splice(E, k, n, x)) == Splice(EntryIds(E), k, n, EntryIds(x))
    ensures EntryIds(E[k..k + n]) == EntryIds(E)[k..k + n]
  {
  }

  /**
   * `Remove` takes out exactly the lines of the removed element's subtree
   * from the pre-order listing: every other element keeps its place in the
   * order, its owner, its kind and its properties.
   */
  lemma {:induction false} RemoveDetachesSubtree(f: seq<Element>, id: int, parent: Option<int>)
    requires id in Ids(f)
    ensures var E := Entries(f, parent);
            var k := IndexOf(Ids(f), id);
            var n := |Ids([Find(f, id).value])|;
            k + n <= |E| && Entries(Remove(f, id).1, parent) == Splice(E, k, n, [])
    decreases f, 1
  {
    FindFirstInPreorder(f, id, parent);
    if f[0].id == id {
      RemoveAtRoot(f, id, parent, Entries(f, parent), IndexOf(Ids(f), id), |Ids([Find(f, id).value])|,
                   Entries(Remove(f, id).1, parent));
    } else if id in Ids(f[0].children) {
      RemoveBelowRoot(f, id, parent, Entries(f, parent), IndexOf(Ids(f), id), |Ids([Find(f, id).value])|,
                      Entries(Remove(f, id).1, parent));
    } else {
      RemoveInTail(f, id, parent, Entries(f, parent), IndexOf(Ids(f), id), |Ids([Find(f, id).value])|,
                   Entries(Remove(f, id).1, parent));
    }
  }

  lemma {:induction false} RemoveAtRoot(f: seq<Element>, id: int, parent: Option<int>,
                                       E: seq<Entry>, k: nat, n: nat, r: seq<Entry>)
    requires f != [] && f[0].id == id
    requires E == Entries(f, parent) && k == IndexOf(Ids(f), id) && n == |Ids([Find(f, id).value])|
    requires r == Entries(Remove(f, id).1, parent)
    ensures k + n <= |E| && r == Splice(E, k, n, [])
  {
    EntriesCons(f, parent);
    SingletonEntries(f[0], parent);
    var L := [Entry(parent, f[0].id, f[0].kind, f[0].props)] + Entries(f[0].children, Some(f[0].id));
    SpliceHead(E, L, Entries(f[1..], parent), k, n, r);
  }

  /** Cutting the leading block of a concatenation leaves the rest. */
  lemma {:induction false} SpliceHead<T>(s: seq<T>, a: seq<T>, b: seq<T>, k: nat, n: nat, r: seq<T>)
    requires s == a + b && k == 0 && n == |a| && r == b
    ensures k + n <= |s| && r == Splice(s, k, n, [])
  {
    assert s[n..] == b;
  }

  lemma {:induction false} RemoveBelowRoot(f: seq<Element>, id: int, parent: Option<int>,
                                          E: seq<Entry>, k: nat, n: nat, r: seq<Entry>)
    requires f != [] && f[0].id != id && id in Ids(f[0].children)
    requires E == Entries(f, parent) && k == IndexOf(Ids(f), id) && n == |Ids([Find(f, id).value])|
    requires r == Entries(Remove(f, id).1, parent)
    ensures k + n <= |E| && r == Splice(E, k, n, [])
    decreases f, 0
  {
    var f0 := f[0];
    var L := [Entry(parent, f0.id, f0.kind, f0.props)];
    var Ec := Entries(f0.children, Some(f0.id));
    var Et := Entries(f[1..], parent);
    EntriesCons(f, parent);
    IndexPastRoot(f, id);
    var e := Find(f0.children, id).value;
    assert Find(f, id) == Some(e);
    var c' := Remove(f0.children, id).1;
    var g := [f0.(children := c')] + f[1..];
    assert Remove(f, id).1 == g;
    EntriesCons(g, parent);
    assert g[0] == f0.(children := c') && g[1..] == f[1..];
    RemoveDetachesSubtree(f0.children, id, Some(f0.id));
    SpliceShift(L, Ec, Et, IndexOf(Ids(f0.children), id), n, [], E, k, Entries(c', Some(f0.id)), r);
  }

  lemma {:induction false} RemoveInTail(f: seq<Element>, id: int, parent: Option<int>,
                                       E: seq<Entry>, k: nat, n: nat, r: seq<Entry>)
    requires f != [] && f[0].id != id && id !in Ids(f[0].children) && id in Ids(f)
    requires E == Entries(f, parent) && k == IndexOf(Ids(f), id) && n == |Ids([Find(f, id).value])|
    requires r == Entries(Remove(f, id).1, parent)
    ensures k + n <= |E| && r == Splice(E, k, n, [])
    decreases f, 0
  {
    var f0 := f[0];
    var L := [Entry(parent, f0.id, f0.kind, f0.props)];
    var Ec := Entries(f0.children, Some(f0.id));
    var Et := Entries(f[1..], parent);
    EntriesCons(f, parent);
    IndexPastRoot(f, id);
    FindInTail(f, id);
    var rest := Remove(f[1..], id).1;
    assert Remove(f, id).1 == [f0] + rest;
    EntriesCons([f0] + rest, parent);
    assert ([f0] + rest)[0] == f0 && ([f0] + rest)[1..] == rest;
    RemoveDetachesSubtree(f[1..], id, parent);
    SpliceShiftTail(L + Ec, Et, IndexOf(Ids(f[1..]), id), n, [], E, k, Entries(rest, parent), r);
  }

  /**
   * `ReplaceFirst` swaps the lines of the first match's subtree for the
   * listing of `x`, under the same owner; all other lines stay as they were.
   */
  lemma {:induction false} ReplaceSwapsSubtree(f: seq<Element>, id: int, x: Element, parent: Option<int>)
    requires id in Ids(f)
    ensures var E := Entries(f, parent);
            var k := IndexOf(Ids(f), id);
            var n := |Ids([Find(f, id).value])|;
            k + n <= |E| && Entries(ReplaceFirst(f, id, x), parent) == Splice(E, k, n, Entries([x], E[k].parent))
    decreases f, 1
  {
    if f[0].id == id {
      ReplaceAtRoot(f, x, parent);
    } else if id in Ids(f[0].children) {
      ReplaceBelowRoot(f, id, x, parent, Entries(f, parent), IndexOf(Ids(f), id), |Ids([Find(f, id).value])|,
                       Entries(ReplaceFirst(f, id, x), parent));
    } else {
      ReplaceInTail(f, id, x, parent, Entries(f, parent), IndexOf(Ids(f), id), |Ids([Find(f, id).value])|,
                    Entries(ReplaceFirst(f, id, x), parent));
    }
  }

  lemma {:induction false} ReplaceBelowRoot(f: seq<Element>, id: int, x: Element, parent: Option<int>,
                                           E: seq<Entry>, k: nat, n: nat, r: seq<Entry>)
    requires f != [] && f[0].id != id && id in Ids(f[0].children)
    requires E == Entries(f, parent) && k == IndexOf(Ids(f), id) && n == |Ids([Find(f, id).value])|
    requires r == Entries(ReplaceFirst(f, id, x), parent)
    ensures k + n <= |E| && r == Splice(E, k, n, Entries([x], E[k].parent))
    decreases f, 0
  {
    var f0 := f[0];
    var L := [Entry(parent, f0.id, f0.kind, f0.props)];
    var Ec := Entries(f0.children, Some(f0.id));
    var Et := Entries(f[1..], parent);
    EntriesCons(f, parent);
    IndexPastRoot(f, id);
    var e := Find(f0.children, id).value;
    assert Find(f, id) == Some(e);
    var c' := ReplaceFirst(f0.children, id, x);
    var g := [f0.(children := c')] + f[1..];
    assert ReplaceFirst(f, id, x) == g;
    EntriesCons(g, parent);
    assert g[0] == f0.(children := c') && g[1..] == f[1..];
    ReplaceSwapsSubtree(f0.children, id, x, Some(f0.id));
    var k' := IndexOf(Ids(f0.children), id);
    SpliceShift(L, Ec, Et, k', n, Entries([x], Ec[k'].parent), E, k, Entries(c', Some(f0.id)), r);
  }

  /** Past a first element whose subtree misses the id, replacement happens in the rest, shifted. */
  lemma {:induction false} ReplaceInTail(f: seq<Element>, id: int, x: Element, parent: Option<int>,
                                        E: seq<Entry>, k: nat, n: nat, r: seq<Entry>)
    requires f != [] && f[0].id != id && id !in Ids(f[0].children) && id in Ids(f)
    requires E == Entries(f, parent) && k == IndexOf(Ids(f), id) && n == |Ids([Find(f, id).value])|
    requires r == Entries(ReplaceFirst(f, id, x), parent)
    ensures k + n <= |E| && r == Splice(E, k, n, Entries([x], E[k].parent))
    decreases f, 0
  {
    var f0 := f[0];
    var L := [Entry(parent, f0.id, f0.kind, f0.props)];
    var Ec := Entries(f0.children, Some(f0.id));
    var Et := Entries(f[1..], parent);
    EntriesCons(f, parent);
    IndexPastRoot(f, id);
    FindInTail(f, id);
    var rest := ReplaceFirst(f[1..], id, x);
    assert ReplaceFirst(f, id, x) == [f0] + rest;
    EntriesCons([f0] + rest, parent);
    assert ([f0] + rest)[0] == f0 && ([f0] + rest)[1..] == rest;
    ReplaceSwapsSubtree(f[1..], id, x, parent);
    var k' := IndexOf(Ids(f[1..]), id);
    SpliceShiftTail(L + Ec, Et, k', n, Entries([x], Et[k'].parent), E, k, Entries(rest, parent), r);
  }

  lemma {:induction false} ReplaceAtRoot(f: seq<Element>, x: Element, parent: Option<int>)
    requires f != []
    ensures var E := Entries(f, parent);
            var n := |Ids([f[0]])|;
            n <= |E| && Entries(ReplaceFirst(f, f[0].id, x), parent) == Splice(E, 0, n, Entries([x], E[0].parent))
  {
    ReplaceRootAt(f, x, parent, Entries(f, parent), |Ids([f[0]])|, Entries(ReplaceFirst(f, f[0].id, x), parent));
  }

  lemma {:induction false} ReplaceRootAt(f: seq<Element>, x: Element, parent: Option<int>,
                                        E: seq<Entry>, n: nat, r: seq<Entry>)
    requires f != [] && E == Entries(f, parent) && n == |Ids([f[0]])| && r == Entries(ReplaceFirst(f, f[0].id, x), parent)
    ensures n <= |E| && r == Splice(E, 0, n, Entries([x], E[0].parent))
  {
    EntriesCons(f, parent);
    SingletonEntries(f[0], parent);
    EntriesConcat([x], f[1..], parent);
    var L := [Entry(parent, f[0].id, f[0].kind, f[0].props)] + Entries(f[0].children, Some(f[0].id));
    assert E == L + Entries(f[1..], parent) && |L| == n;
    assert E[n..] == Entries(f[1..], parent);
  }

  /** After the replacement, looking the id up finds the replacement. */
  lemma {:induction false} FindAfterReplace(f: seq<Element>, id: int, x: Element)
    requires id in Ids(f) && x.id == id
    ensures Find(ReplaceFirst(f, id, x), id) == Some(x)
  {
    var f0 := f[0];
    if f0.id == id {
    } else if id in Ids(f0.children) {
      FindAfterReplace(f0.children, id, x);
      assert ReplaceFirst(f, id, x)[0] == f0.(children := ReplaceFirst(f0.children, id, x));
    } else {
      IndexPastRoot(f, id);
      FindAfterReplace(f[1..], id, x);
      var r := ReplaceFirst(f, id, x);
      assert r[0] == f0 && r[1..] == ReplaceFirst(f[1..], id, x);
    }
  }

  // ----- the same facts, read on ids -----

  /** The pre-order ids of the removed subtree are a block of the forest's ids, and removal cuts that block out. */
  lemma {:induction false} RemoveIds(f: seq<Element>, id: int)
    requires id in Ids(f)
    ensures var k := IndexOf(Ids(f), id);
            var n := |Ids([Find(f, id).value])|;
            k + n <= |Ids(f)| && Ids(f)[k..k + n] == Ids([Find(f, id).value])
            && Ids(Remove(f, id).1) == Splice(Ids(f), k, n, [])
  {
    var e := Find(f, id).value;
    RemoveIdsAt(f, id, e, IndexOf(Ids(f), id), |Ids([e])|, Ids(f), Ids(Remove(f, id).1));
  }

  lemma {:induction false} RemoveIdsAt(f: seq<Element>, id: int, e: Element, k: nat, n: nat, I: seq<int>, R: seq<int>)
    requires id in Ids(f) && Find(f, id) == Some(e) && k == IndexOf(Ids(f), id) && n == |Ids([e])|
    requires I == Ids(f) && R == Ids(Remove(f, id).1)
    ensures k + n <= |I| && I[k..k + n] == Ids([e]) && R == Splice(I, k, n, [])
  {
    var E := Entries(f, None);
    var r := Entries(Remove(f, id).1, None);
    FoundAt(f, id, None, E, k, e);
    DetachedAt(f, id, None, E, k, n, r);
    ListedIds(E, k, n, [], r, e, I, R);
  }

  /** The first match's subtree in the listing, with the listing and the position named. */
  lemma {:induction false} FoundAt(f: seq<Element>, id: int, parent: Option<int>, E: seq<Entry>, k: nat, e: Element)
    requires id in Ids(f) && E == Entries(f, parent) && k == IndexOf(Ids(f), id) && Find(f, id) == Some(e)
    ensures SubtreeAt(E, k, e)
  {
    FindFirstInPreorder(f, id, parent);
  }

  /** The listing after the removal, with the listings, position and size named. */
  lemma {:induction false} DetachedAt(f: seq<Element>, id: int, parent: Option<int>, E: seq<Entry>, k: nat, n: nat, r: seq<Entry>)
    requires id in Ids(f) && E == Entries(f, parent) && k == IndexOf(Ids(f), id) && n == |Ids([Find(f, id).value])|
    requires r == Entries(Remove(f, id).1, parent)
    ensures k + n <= |E| && r == Splice(E, k, n, [])
  {
    RemoveDetachesSubtree(f, id, parent);
  }

  /** The listing after the replacement, with the listings, position and size named. */
  lemma {:induction false} SwappedAt(f: seq<Element>, id: int, x: Element, parent: Option<int>,
                                    E: seq<Entry>, k: nat, n: nat, r: seq<Entry>)
    requires id in Ids(f) && E == Entries(f, parent) && k == IndexOf(Ids(f), id) && n == |Ids([Find(f, id).value])|
    requires r == Entries(ReplaceFirst(f, id, x), parent)
    ensures k + n <= |E| && r == Splice(E, k, n, Entries([x], E[k].parent))
  {
    ReplaceSwapsSubtree(f, id, x, parent);
  }

  lemma {:induction false} ReplaceIds(f: seq<Element>, id: int, x: Element)
    requires id in Ids(f)
    ensures var k := IndexOf(Ids(f), id);
            var n := |Ids([Find(f, id).value])|;
            k + n <= |Ids(f)| && Ids(f)[k..k + n] == Ids([Find(f, id).value])
            && Ids(ReplaceFirst(f, id, x)) == Splice(Ids(f), k, n, Ids([x]))
  {
    var e := Find(f, id).value;
    ReplaceIdsAt(f, id, x, e, IndexOf(Ids(f), id), |Ids([e])|, Ids(f), Ids(ReplaceFirst(f, id, x)));
  }

  lemma {:induction false} ReplaceIdsAt(f: seq<Element>, id: int, x: Element, e: Element, k: nat, n: nat,
                                       I: seq<int>, R: seq<int>)
    requires id in Ids(f) && Find(f, id) == Some(e) && k == IndexOf(Ids(f), id) && n == |Ids([e])|
    requires I == Ids(f) && R == Ids(ReplaceFirst(f, id, x))
    ensures k + n <= |I| && I[k..k + n] == Ids([e]) && R == Splice(I, k, n, Ids([x]))
  {
    var E := Entries(f, None);
    var r := Entries(ReplaceFirst(f, id, x), None);
    FoundAt(f, id, None, E, k, e);
    SwappedAt(f, id, x, None, E, k, n, r);
    ListedIds(E, k, n, Entries([x], E[k].parent), r, e, I, R);
  }

  /** A splice of a listing over a subtree is the same splice of its ids. */
  lemma {:induction false} ListedIds(E: seq<Entry>, k: nat, n: nat, x: seq<Entry>, r: seq<Entry>, e: Element,
                                    I: seq<int>, R: seq<int>)
    requires SubtreeAt(E, k, e) && n == |Ids([e])| && r == Splice(E, k, n, x)
    requires I == EntryIds(E) && R == EntryIds(r)
    ensures k + n <= |I| && I[k..k + n] == Ids([e]) && R == Splice(I, k, n, EntryIds(x))
  {
    EntryIdsSplice(E, k, n, x);
    assert EntryIds(Entries([e], E[k].parent)) == Ids([e]);
  }

  /** Cutting a block out of a sequence, as multisets. */
  lemma {:induction false} SpliceMultiset(s: seq<int>, k: nat, n: nat, x: seq<int>)
    requires k + n <= |s|
    ensures multiset(Splice(s, k, n, x)) + multiset(s[k..k + n]) == multiset(s) + multiset(x)
  {
    assert s == s[..k] + s[k..k + n] + s[k + n..];
  }

  /**
   * Removal keeps every other id and, when ids are distinct, none of the
   * removed subtree's ids can be found in what remains.
   */
  lemma {:induction false} RemoveKeepsOtherIds(f: seq<Element>, id: int)
    requires id in Ids(f)
    ensures multiset(Ids(Remove(f, id).1)) + multiset(Ids([Find(f, id).value])) == multiset(Ids(f))
    ensures Distinct(Ids(f)) ==> Distinct(Ids(Remove(f, id).1))
    ensures Distinct(Ids(f)) ==> forall x :: x in Ids([Find(f, id).value]) ==> x !in Ids(Remove(f, id).1)
  {
    RemoveIds(f, id);
    var s := Ids(f);
    var k := IndexOf(s, id);
    var n := |Ids([Find(f, id).value])|;
    var rest := Ids(Remove(f, id).1);
    var sub := Ids([Find(f, id).value]);
    assert rest == Splice(s, k, n, []) && sub == s[k..k + n];
    SpliceMultiset(s, k, n, []);
    assert multiset(rest) + multiset(sub) == multiset(s);
    DistinctParts(s, rest, sub);
  }

  /** When a sequence of distinct ids splits, as multisets, into two parts, the parts are distinct and disjoint. */
  lemma DistinctParts(s: seq<int>, a: seq<int>, b: seq<int>)
    requires multiset(a) + multiset(b) == multiset(s)
    ensures Distinct(s) ==> Distinct(a) && Distinct(b)
    ensures Distinct(s) ==> forall x :: x in b ==> x !in a
  {
    if Distinct(s) {
      forall x ensures multiset(a)[x] <= 1 && multiset(b)[x] <= 1 && (x in b ==> x !in a) {
        assert multiset(a)[x] + multiset(b)[x] == multiset(s)[x];
      }
    }
  }

  lemma {:induction false} ReplaceIdsMultiset(f: seq<Element>, id: int, x: Element)
    requires id in Ids(f)
    ensures multiset(Ids(ReplaceFirst(f, id, x))) + multiset(Ids([Find(f, id).value])) == multiset(Ids(f)) + multiset(Ids([x]))
  {
    ReplaceIds(f, id, x);
    var s := Ids(f);
    var k := IndexOf(s, id);
    var n := |Ids([Find(f, id).value])|;
    var r := Ids(ReplaceFirst(f, id, x));
    assert r == Splice(s, k, n, Ids([x])) && Ids([Find(f, id).value]) == s[k..k + n];
    SpliceMultiset(s, k, n, Ids([x]));
  }

  /** Appending a child adds exactly the child's subtree to the element's ids. */
  lemma {:induction false} AppendChildIds(t: Element, d: Element)
    ensures Ids([t.(children := t.children + [d])]) == Ids([t]) + Ids([d])
  {
    ChildIdsAt(t, d, t.(children := t.children + [d]), Ids([t.(children := t.children + [d])]), Ids([t]), Ids([d]));
  }

  lemma {:induction false} ChildIdsAt(t: Element, d: Element, t': Element, A: seq<int>, B: seq<int>, C: seq<int>)
    requires t' == t.(children := t.children + [d]) && A == Ids([t']) && B == Ids([t]) && C == Ids([d])
    ensures A == B + C
  {
    SingletonIds(t, B);
    SingletonIds(t', A);
    IdsConcat(t.children, [d]);
  }

  lemma {:induction false} SingletonIds(e: Element, I: seq<int>)
    requires I == Ids([e])
    ensures I == [e.id] + Ids(e.children)
  {
    assert [e][1..] == [];
  }

  // ----- re-parenting -----

  /**
   * The drop handler's tree edit as written: unless the element is dropped
   * on itself, detach it, then look the target up in what remains and, if
   * both were found, append the detached subtree as the target's last child.
   * The detachment stands even when the target lookup fails.
   */
  function Reparent(f: seq<Element>, dragged: int, target: int): (r: seq<Element>)
    ensures dragged == target ==> r == f
    ensures dragged !in Ids(f) ==> r == f
  {
    if target == dragged then f
    else
      var (moved, rest) := Remove(f, dragged);
      match (moved, Find(rest, target))
      case (Some(d), Some(t)) => ReplaceFirst(rest, target, t.(children := t.children + [d]))
      case _ => rest
  }

  /** Growing a replaced block by a suffix is inserting that suffix right after the block. */
  /** Replacing a subtree's block by a block that extends it inserts the extension after the block. */
  lemma {:induction false} GrowSubtree(E: seq<Entry>, k: nat, t: Element, t': Element, x: seq<Entry>, r: seq<Entry>)
    requires SubtreeAt(E, k, t)
    requires r == Splice(E, k, |Ids([t])|, Entries([t'], E[k].parent))
    requires Entries([t'], E[k].parent) == Entries([t], E[k].parent) + x
    ensures Inserted(E, k + |Ids([t])|, x, r)
  {
    GrowSplice(E, k, |Ids([t])|, Entries([t], E[k].parent), x, r, Entries([t'], E[k].parent));
  }

  /** Replacing a block by itself followed by x inserts x right after the block. */
  lemma {:induction false} GrowSplice<T>(s: seq<T>, k: nat, n: nat, b: seq<T>, x: seq<T>, r: seq<T>, b': seq<T>)
    requires k + n <= |s| && s[k..k + n] == b && b' == b + x && r == Splice(s, k, n, b')
    ensures Inserted(s, k + n, x, r)
  {
    assert s[..k + n] == s[..k] + s[k..k + n];
  }


  /** After detaching a subtree, an id outside it is still in the forest. */
  lemma {:induction false} TargetSurvivesRemove(f: seq<Element>, dragged: int, target: int)
    requires Distinct(Ids(f)) && dragged in Ids(f) && target in Ids(f)
    requires target !in Ids([Find(f, dragged).value])
    ensures target in Ids(Remove(f, dragged).1)
  {
    RemoveKeepsOtherIds(f, dragged);
    assert target in multiset(Ids(f));
  }

  /** With both lookups successful, the drop is a replacement of the target in what remains. */
  lemma {:induction false} ReparentUnfold(f: seq<Element>, dragged: int, target: int)
    requires dragged != target && dragged in Ids(f)
    requires target in Ids(Remove(f, dragged).1)
    ensures var t := Find(Remove(f, dragged).1, target).value;
            Reparent(f, dragged, target)
            == ReplaceFirst(Remove(f, dragged).1, target, t.(children := t.children + [Find(f, dragged).value]))
  {
  }

  /** The multiset bookkeeping of a move: take d out, put t back grown by d. */
  lemma MoveMultiset(F: seq<int>, rest: seq<int>, D: seq<int>, R: seq<int>, T: seq<int>)
    requires multiset(rest) + multiset(D) == multiset(F)
    requires multiset(R) + multiset(T) == multiset(rest) + multiset(T + D)
    ensures multiset(R) == multiset(F)
  {
    assert multiset(T + D) == multiset(T) + multiset(D);
    forall x ensures multiset(R)[x] == multiset(F)[x] {
      assert (multiset(R) + multiset(T))[x] == (multiset(rest) + multiset(T + D))[x];
      assert (multiset(rest) + multiset(D))[x] == multiset(F)[x];
    }
  }

  /**
   * Dropping an element on a target outside its own subtree moves the
   * subtree and nothing else: the multiset of ids is unchanged and the
   * target now ends with the dragged element as its last child.
   */
  lemma {:induction false} ReparentMovesSubtree(f: seq<Element>, dragged: int, target: int)
    requires Distinct(Ids(f)) && dragged in Ids(f) && target in Ids(f)
    requires target !in Ids([Find(f, dragged).value])
    ensures target in Ids(Remove(f, dragged).1)
    ensures multiset(Ids(Reparent(f, dragged, target))) == multiset(Ids(f))
    ensures var t := Find(Remove(f, dragged).1, target).value;
            Find(Reparent(f, dragged, target), target) == Some(t.(children := t.children + [Find(f, dragged).value]))
  {
    var d := Find(f, dragged).value;
    var rest := Remove(f, dragged).1;
    TargetSurvivesRemove(f, dragged, target);
    SingletonIds(d, Ids([d]));
    var t := Find(rest, target).value;
    var t' := t.(children := t.children + [d]);
    ReparentUnfold(f, dragged, target);
    var r := ReplaceFirst(rest, target, t');
    RemoveKeepsOtherIds(f, dragged);
    ReplaceIdsMultiset(rest, target, t');
    AppendChildIds(t, d);
    MoveMultiset(Ids(f), Ids(rest), Ids([d]), Ids(r), Ids([t]));
    FindAfterReplace(rest, target, t');
  }

  /** A subtree grown by one last child lists the new child's subtree right after its own lines. */
  lemma {:induction false} AppendChildEntries(t: Element, d: Element, p: Option<int>)
    ensures Entries([t.(children := t.children + [d])], p) == Entries([t], p) + Entries([d], Some(t.id))
  {
    var t' := t.(children := t.children + [d]);
    SingletonEntries(t, p);
    SingletonEntries(t', p);
    EntriesConcat(t.children, [d], Some(t.id));
  }

  /**
   * r lists as f does, with d's subtree, owned by target, inserted right
   * after the last line of target's own subtree.
   */
  ghost predicate AppendedAfter(f: seq<Element>, target: int, d: Element, r: seq<Element>)
  {
    target in Ids(f)
    && Inserted(Entries(f, None), IndexOf(Ids(f), target) + |Ids([Find(f, target).value])|,
                Entries([d], Some(target)), Entries(r, None))
  }

  /** r is s with x inserted at position j. */
  ghost predicate Inserted<T>(s: seq<T>, j: nat, x: seq<T>, r: seq<T>)
  {
    j <= |s| && r == Splice(s, j, 0, x)
  }

  /** Growing the found target by a last child inserts that child's lines after the target's block. */
  lemma {:induction false} AppendToFoundEntries(f: seq<Element>, target: int, d: Element)
    requires target in Ids(f)
    ensures var t := Find(f, target).value;
            AppendedAfter(f, target, d, ReplaceFirst(f, target, t.(children := t.children + [d])))
  {
    var t := Find(f, target).value;
    var t' := t.(children := t.children + [d]);
    GrowFoundAt(f, target, d, t, t', Entries(f, None), IndexOf(Ids(f), target), Entries(ReplaceFirst(f, target, t'), None));
  }

  /** The growth of the found target, with the listings and the target's position named. */
  lemma {:induction false} GrowFoundAt(f: seq<Element>, target: int, d: Element, t: Element, t': Element,
                                      E: seq<Entry>, k: nat, r: seq<Entry>)
    requires target in Ids(f) && Find(f, target) == Some(t) && t' == t.(children := t.children + [d])
    requires E == Entries(f, None) && k == IndexOf(Ids(f), target) && r == Entries(ReplaceFirst(f, target, t'), None)
    ensures Inserted(E, k + |Ids([t])|, Entries([d], Some(target)), r)
  {
    FindFirstInPreorder(f, target, None);
    ReplaceSwapsSubtree(f, target, t', None);
    AppendChildEntries(t, d, E[k].parent);
    GrowSubtree(E, k, t, t', Entries([d], Some(target)), r);
  }

  /**
   * The same drop, read on the pre-order listing: the dragged subtree's
   * lines, now owned by the target, come right after the target's last
   * descendant; every other line is as it was after the detachment.
   */
  lemma {:induction false} ReparentAppendsAfterTarget(f: seq<Element>, dragged: int, target: int)
    requires Distinct(Ids(f)) && dragged in Ids(f) && target in Ids(f)
    requires target !in Ids([Find(f, dragged).value])
    ensures AppendedAfter(Remove(f, dragged).1, target, Find(f, dragged).value, Reparent(f, dragged, target))
  {
    var d := Find(f, dragged).value;
    var rest := Remove(f, dragged).1;
    TargetSurvivesRemove(f, dragged, target);
    var t := Find(rest, target).value;
    ReparentUnfold(f, dragged, target);
    AppendToFoundEntries(rest, target, d);
  }

  /** A sub-multiset of a list without repeats has no repeats and no new members. */
  lemma DistinctSub(a: seq<int>, b: seq<int>)
    requires multiset(a) <= multiset(b)
    ensures Distinct(b) ==> Distinct(a)
    ensures forall x :: x in a ==> x in b
  {
    forall x | x in a ensures x in b {
      assert x in multiset(a);
    }
    if Distinct(b) {
      forall x ensures multiset(a)[x] <= 1 {
        assert multiset(a)[x] <= multiset(b)[x];
      }
    }
  }

  /**
   * Whatever the drop's arguments, it never duplicates or invents an
   * element: its ids form a sub-multiset of the original ones, so distinct
   * ids stay distinct.
   */
  lemma {:induction false} ReparentNeverDuplicates(f: seq<Element>, dragged: int, target: int)
    ensures multiset(Ids(Reparent(f, dragged, target))) <= multiset(Ids(f))
    ensures Distinct(Ids(f)) ==> Distinct(Ids(Reparent(f, dragged, target)))
    ensures forall x :: x in Ids(Reparent(f, dragged, target)) ==> x in Ids(f)
  {
    if target != dragged && dragged in Ids(f) {
      var d := Find(f, dragged).value;
      var rest := Remove(f, dragged).1;
      RemoveKeepsOtherIds(f, dragged);
      if target in Ids(rest) {
        var t := Find(rest, target).value;
        var t' := t.(children := t.children + [d]);
        ReparentUnfold(f, dragged, target);
        var r := ReplaceFirst(rest, target, t');
        ReplaceIdsMultiset(rest, target, t');
        AppendChildIds(t, d);
        MoveMultiset(Ids(f), Ids(rest), Ids([d]), Ids(r), Ids([t]));
      } else {
        assert Reparent(f, dragged, target) == rest;
      }
    }
    DistinctSub(Ids(Reparent(f, dragged, target)), Ids(f));
  }

  /**
   * Dropping an element on one of its own descendants: after the detachment
   * the target cannot be found, so the dragged subtree is detached and never
   * re-attached; none of its ids remain in the tree.
   */
  lemma {:induction false} ReparentIntoOwnSubtreeDropsIt(f: seq<Element>, dragged: int, target: int)
    requires Distinct(Ids(f)) && dragged in Ids(f) && target != dragged
    requires target in Ids([Find(f, dragged).value])
    ensures Reparent(f, dragged, target) == Remove(f, dragged).1
    ensures forall x :: x in Ids([Find(f, dragged).value]) ==> x !in Ids(Reparent(f, dragged, target))
  {
    RemoveKeepsOtherIds(f, dragged);
    assert Find(Remove(f, dragged).1, target).None?;
  }

  /** A frame with one child frame, dropped on that child: the whole forest is gone. */
  lemma DropOntoOwnChildEmptiesForest()
    ensures var child := Element(2, Frame, DefaultProperties(Frame, "Frame2"), []);
            var forest := [Element(1, Frame, DefaultProperties(Frame, "Frame1"), [child])];
            Reparent(forest, 1, 2) == []
  {
  }

  /**
   * The drop with the missing checks added: it does nothing unless both the
   * dragged element and the target exist and the target lies outside the
   * dragged subtree (which also rules out dropping an element on itself).
   */
  function SafeReparent(f: seq<Element>, dragged: int, target: int): (r: seq<Element>)
    ensures DropAllowed(f, dragged, target) ==> r == Reparent(f, dragged, target)
    ensures !DropAllowed(f, dragged, target) ==> r == f
  {
    match Find(f, dragged)
    case None => f
    case Some(d) => if target in Ids([d]) || target !in Ids(f) then f else Reparent(f, dragged, target)
  }

  /** A drop the corrected handler carries out: both ids present, the target outside the dragged subtree. */
  predicate DropAllowed(f: seq<Element>, dragged: int, target: int) {
    Find(f, dragged).Some? && target in Ids(f) && target !in Ids([Find(f, dragged).value])
  }

  /**
   * An allowed drop is carried out: the target, found afterwards, has the
   * dragged subtree as its last child, and in the listing that subtree's
   * lines follow the target's own subtree.
   */
  lemma {:induction false} SafeReparentAttaches(f: seq<Element>, dragged: int, target: int)
    requires Distinct(Ids(f)) && DropAllowed(f, dragged, target)
    ensures var r := SafeReparent(f, dragged, target);
            Find(r, target).Some? && |Find(r, target).value.children| > 0
            && Find(r, target).value.children[|Find(r, target).value.children| - 1] == Find(f, dragged).value
    ensures AppendedAfter(Remove(f, dragged).1, target, Find(f, dragged).value, SafeReparent(f, dragged, target))
  {
    ReparentMovesSubtree(f, dragged, target);
    ReparentAppendsAfterTarget(f, dragged, target);
  }

  /** The corrected drop never loses or duplicates an element. */
  lemma {:induction false} SafeReparentKeepsIds(f: seq<Element>, dragged: int, target: int)
    requires Distinct(Ids(f))
    ensures multiset(Ids(SafeReparent(f, dragged, target))) == multiset(Ids(f))
  {
    match Find(f, dragged)
    case None =>
    case Some(d) =>
      if target !in Ids([d]) && target in Ids(f) {
        ReparentMovesSubtree(f, dragged, target);
      }
  }

  // ----- property writes -----

  /**
   * The property input handler and the gestures write into the properties
   * of the element `Find` returns, in place; the forest is otherwise
   * untouched. Absent ids leave it as it is.
   */
  function SetProps(f: seq<Element>, id: int, p: Props): (r: seq<Element>)
    ensures id !in Ids(f) ==> r == f
  {
    match Find(f, id)
    case None => f
    case Some(e) => ReplaceFirst(f, id, e.(props := p))
  }

  /** Replacing a block by itself with its first line changed is changing that line. */
  lemma {:induction false} SpliceUpdate<T>(s: seq<T>, k: nat, n: nat, y: T)
    requires k < k + n <= |s|
    ensures Splice(s, k, n, s[k..k + n][0 := y]) == s[k := y]
  {
    var r := Splice(s, k, n, s[k..k + n][0 := y]);
    assert |r| == |s|;
    forall i | 0 <= i < |s| ensures r[i] == s[k := y][i] {
      if i < k {
      } else if i < k + n {
        assert r[i] == s[k..k + n][0 := y][i - k];
      } else {
        assert r[i] == s[k + n..][i - k - n];
      }
    }
  }

  /** A subtree with new root properties lists as before except for its first line. */
  lemma {:induction false} PropsOnlyInFirstLine(e: Element, p: Props, q: Option<int>)
    ensures var es := Entries([e], q);
            es != [] && Entries([e.(props := p)], q) == es[0 := es[0].(props := p)]
  {
    SingletonEntries(e, q);
    SingletonEntries(e.(props := p), q);
  }

  /**
   * A property write changes exactly one line of the pre-order listing,
   * the written element's own, and only its properties: no element moves,
   * appears or disappears.
   */
  lemma {:induction false} SetPropsChangesOneLine(f: seq<Element>, id: int, p: Props, parent: Option<int>)
    requires id in Ids(f)
    ensures var E := Entries(f, parent);
            var k := IndexOf(Ids(f), id);
            k < |E| && Entries(SetProps(f, id, p), parent) == E[k := E[k].(props := p)]
  {
    var e := Find(f, id).value;
    var x := e.(props := p);
    var E := Entries(f, parent);
    var k := IndexOf(Ids(f), id);
    var n := |Ids([e])|;
    FindFirstInPreorder(f, id, parent);
    assert SubtreeAt(E, k, e);
    assert E[k..k + n] == Entries([e], E[k].parent);
    ReplaceSwapsSubtree(f, id, x, parent);
    var q := E[k].parent;
    PropsOnlyInFirstLine(e, p, q);
    assert E[k..k + n][0] == E[k];
    SpliceUpdate(E, k, n, E[k].(props := p));
  }

  /** The line of the pre-order listing where `Find`'s element sits carries that element's id, kind and properties. */
  lemma {:induction false} FoundLine(f: seq<Element>, id: int, parent: Option<int>)
    requires id in Ids(f)
    ensures var E := Entries(f, parent);
            var k := IndexOf(Ids(f), id);
            var e := Find(f, id).value;
            k < |E| && E[k].id == id && E[k].kind == e.kind && E[k].props == e.props
  {
    var E := Entries(f, parent);
    var k := IndexOf(Ids(f), id);
    var e := Find(f, id).value;
    FindFirstInPreorder(f, id, parent);
    var S := Entries([e], E[k].parent);
    assert E[k..k + |Ids([e])|] == S;
    SingletonEntries(e, E[k].parent);
    assert S[0] == Entry(E[k].parent, e.id, e.kind, e.props);
  }

  /** Property writes keep every id where it was. */
  lemma {:induction false} SetPropsKeepsIds(f: seq<Element>, id: int, p: Props)
    ensures Ids(SetProps(f, id, p)) == Ids(f)
  {
    if id in Ids(f) {
      SetPropsChangesOneLine(f, id, p, None);
      var E := Entries(f, None);
      var k := IndexOf(Ids(f), id);
      assert EntryIds(E[k := E[k].(props := p)]) == EntryIds(E);
    }
  }

  /** The written element is found again, carrying the new properties. */
  lemma {:induction false} FindAfterSetProps(f: seq<Element>, id: int, p: Props)
    requires id in Ids(f)
    ensures Find(SetProps(f, id, p), id) == Some(Find(f, id).value.(props := p))
  {
    FindAfterReplace(f, id, Find(f, id).value.(props := p));
  }

  /** Replacing a block by a copy of itself leaves a sequence unchanged. */
  lemma SpliceSame<T>(s: seq<T>, k: nat, n: nat)
    requires k + n <= |s|
    ensures Splice(s, k, n, s[k..k + n]) == s
  {
    assert s[..k] + s[k..k + n] + s[k + n..] == s;
  }

  /** Replacing an element by one with the same id and children keeps the ids. */
  lemma {:induction false} SameShapeIds(f: seq<Element>, id: int, x: Element)
    requires id in Ids(f) && x.id == id && x.children == Find(f, id).value.children
    ensures Ids(ReplaceFirst(f, id, x)) == Ids(f)
  {
    var e := Find(f, id).value;
    ReplaceIds(f, id, x);
    SingletonIds(e, Ids([e]));
    SingletonIds(x, Ids([x]));
    SpliceSame(Ids(f), IndexOf(Ids(f), id), |Ids([e])|);
  }

  /** Replacing the same element twice, where the first replacement kept its shape, is replacing it once. */
  lemma {:induction false} ReplaceTwice(f: seq<Element>, id: int, x: Element, y: Element)
    requires id in Ids(f) && x.id == id && x.children == Find(f, id).value.children
    ensures ReplaceFirst(ReplaceFirst(f, id, x), id, y) == ReplaceFirst(f, id, y)
  {
    if f[0].id == id {
      assert ([x] + f[1..])[1..] == f[1..];
    } else if id in Ids(f[0].children) {
      var c := ReplaceFirst(f[0].children, id, x);
      ReplaceTwice(f[0].children, id, x, y);
      SameShapeIds(f[0].children, id, x);
      var g := [f[0].(children := c)] + f[1..];
      assert g[0].id != id && id in Ids(g[0].children) && g[1..] == f[1..];
    } else {
      var r := ReplaceFirst(f[1..], id, x);
      ReplaceTwice(f[1..], id, x, y);
      var g := [f[0]] + r;
      assert g[0] == f[0] && g[1..] == r;
    }
  }

  /** A second property write to the same element overrides the first. */
  lemma {:induction false} SetPropsTwice(f: seq<Element>, id: int, p: Props, q: Props)
    ensures SetProps(SetProps(f, id, p), id, q) == SetProps(f, id, q)
  {
    if id in Ids(f) {
      var e := Find(f, id).value;
      FindAfterSetProps(f, id, p);
      ReplaceTwice(f, id, e.(props := p), e.(props := q));
      assert e.(props := p).(props := q) == e.(props := q);
    }
  }

  // ----- the removal loop -----

  lemma ConsConcat<T>(p: seq<T>, g: seq<T>, x: seq<T>)
    requires p != []
    ensures (p + g)[0] == p[0] && (p + g)[1..] == p[1..] + g
    ensures [p[0]] + (p[1..] + x) == p + x
  {
  }

  /** Removal passes over a first sibling whose subtree does not hold the id. */
  lemma {:induction false} RemoveSkipsHead(f: seq<Element>, id: int)
    requires f != [] && f[0].id != id && id !in Ids(f[0].children)
    ensures Remove(f, id) == (Remove(f[1..], id).0, [f[0]] + Remove(f[1..], id).1)
  {
    var c := Remove(f[0].children, id);
    assert c.0.None?;
  }

  /** Removal skips a prefix of siblings none of whose subtrees holds the id. */
  lemma {:induction false} RemoveAfterPrefix(p: seq<Element>, g: seq<Element>, id: int)
    requires id !in Ids(p)
    ensures Remove(p + g, id) == (Remove(g, id).0, p + Remove(g, id).1)
  {
    var t := Remove(g, id);
    if p == [] {
      assert p + g == g && p + t.1 == t.1;
      assert t == (t.0, t.1);
    } else {
      ConsConcat(p, g, t.1);
      assert p[0].id != id && id !in Ids(p[0].children) && id !in Ids(p[1..]);
      RemoveSkipsHead(p + g, id);
      RemoveAfterPrefix(p[1..], g, id);
    }
  }

  /** The loop's step that finds the id on the i-th sibling. */
  lemma {:induction false} RemoveHitsAt(elements: seq<Element>, id: int, i: nat,
                                       removed: Option<Element>, remaining: seq<Element>)
    requires i < |elements| && id !in Ids(elements[..i]) && elements[i].id == id
    requires removed == Some(elements[i]) && remaining == elements[..i] + elements[i + 1..]
    ensures (removed, remaining) == Remove(elements, id)
  {
    assert elements == elements[..i] + elements[i..];
    RemoveAfterPrefix(elements[..i], elements[i..], id);
    assert elements[i..][0] == elements[i] && elements[i..][1..] == elements[i + 1..];
  }

  /** The loop's step that finds the id below the i-th sibling. */
  lemma {:induction false} RemoveBelowAt(elements: seq<Element>, id: int, i: nat, r: Option<Element>, children: seq<Element>,
                                        removed: Option<Element>, remaining: seq<Element>)
    requires i < |elements| && id !in Ids(elements[..i]) && elements[i].id != id
    requires (r, children) == Remove(elements[i].children, id) && r.Some?
    requires removed == r && remaining == elements[..i] + [elements[i].(children := children)] + elements[i + 1..]
    ensures (removed, remaining) == Remove(elements, id)
  {
    var e := elements[i];
    var tail := elements[i..];
    assert elements == elements[..i] + tail;
    RemoveAfterPrefix(elements[..i], tail, id);
    assert tail[0] == e && tail[1..] == elements[i + 1..];
    assert Remove(tail, id) == (r, [e.(children := children)] + elements[i + 1..]);
    assert elements[..i] + ([e.(children := children)] + elements[i + 1..]) == remaining;
  }

  /** The loop's step past an i-th sibling whose subtree misses the id. */
  lemma {:induction false} RemoveMissesAt(elements: seq<Element>, id: int, i: nat)
    requires i < |elements| && id !in Ids(elements[..i]) && elements[i].id != id
    requires Remove(elements[i].children, id).0.None?
    ensures id !in Ids(elements[..i + 1])
  {
    TakeOneMore(elements, i, elements[..i], elements[..i + 1]);
    assert Find(elements[i].children, id).None?;
    MissesStep(elements[..i], elements[i], elements[..i + 1], id);
  }

  /** Looking up an id that the prefix lacks reads past the prefix. */
  lemma {:induction false} FindPastPrefix(a: seq<Element>, b: seq<Element>, id: int)
    requires id !in Ids(a)
    ensures Find(a + b, id) == Find(b, id)
  {
    if a == [] {
      assert a + b == b;
    } else {
      assert (a + b)[0] == a[0];
      assert (a + b)[1..] == a[1..] + b;
      assert Ids(a) == [a[0].id] + Ids(a[0].children) + Ids(a[1..]);
      FindPastPrefix(a[1..], b, id);
    }
  }

  /** An element appended with a new id is what that id finds. */
  lemma FindAppended(f: seq<Element>, e: Element)
    requires e.id !in Ids(f)
    ensures Find(f + [e], e.id) == Some(e)
  {
    FindPastPrefix(f, [e], e.id);
  }

  /** A prefix one longer is the prefix and the next item. */
  lemma {:induction false} TakeOneMore<T>(s: seq<T>, i: nat, p: seq<T>, q: seq<T>)
    requires i < |s| && p == s[..i] && q == s[..i + 1]
    ensures q == p + [s[i]]
  {
  }

  /** Appending a childless element adds just its id after the others. */
  lemma {:induction false} AppendedIds(f: seq<Element>, e: Element, g: seq<Element>, I: seq<int>, J: seq<int>)
    requires e.children == [] && g == f + [e] && I == Ids(f) && J == Ids(g)
    ensures J == I + [e.id]
  {
    IdsConcat(f, [e]);
    SingletonIds(e, Ids([e]));
    assert Ids(e.children) == [];
  }

  /** One more sibling without the id, neither at its root nor below it. */
  lemma {:induction false} MissesStep(p: seq<Element>, e: Element, q: seq<Element>, id: int)
    requires q == p + [e] && id !in Ids(p) && e.id != id && id !in Ids(e.children)
    ensures id !in Ids(q)
  {
    IdsConcat(p, [e]);
    SingletonIds(e, Ids([e]));
  }

  /**
   * `removeElementFromTree` as the source runs it: a loop over the sibling
   * list that splices out a match, or recurses into each sibling's children
   * and stops at the first success. The updated sibling list is returned.
   */
  method RemoveFromTree(elements: seq<Element>, id: int) returns (removed: Option<Element>, remaining: seq<Element>)
    ensures (removed, remaining) == Remove(elements, id)
    decreases elements
  {
    var i := 0;
    while i < |elements|
      invariant 0 <= i <= |elements|
      invariant id !in Ids(elements[..i])
    {
      var e := elements[i];
      if e.id == id {
        removed, remaining := Some(e), elements[..i] + elements[i + 1..];
        RemoveHitsAt(elements, id, i, removed, remaining);
        return;
      }
      var r, children := RemoveFromTree(e.children, id);
      if r.Some? {
        removed, remaining := r, elements[..i] + [e.(children := children)] + elements[i + 1..];
        RemoveBelowAt(elements, id, i, r, children, removed, remaining);
        return;
      }
      RemoveMissesAt(elements, id, i);
      i := i + 1;
    }
    assert elements[..i] == elements;
    return None, elements;
  }
}
