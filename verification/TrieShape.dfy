/** The nodes of the topic trie and what makes them a faithful index: the invariant relates the
    heap's pointers to ways through the tree and the nodes' lists to the flat store. The steps
    that insert and delete take are proved here on pictures of the nodes' fields. */
module TrieShape {
  import opened Prelude
  import opened Topics
  import opened SubscriberLists
  import opened TopicStore
  import opened Scanning

  /** `struct TrieNode`. The two hash tables are a map and a nullable pointer: `children` is only
      ever looked up by key, and `plus_children` holds at most the one key "+". */
  class TrieNode {
    const key: string
    var children: map<string, TrieNode>
    var plus: TrieNode?
    var pound: Option<seq<Entry>>
    var list: Option<seq<Entry>>
    /** The way to this node. */
    ghost const at: Addr

    constructor (key: string, ghost at: Addr)
      ensures this.key == key && this.at == at
      ensures View() == NEW
    {
      this.key := key;
      this.at := at;
      children, plus, pound, list := map[], null, None, None;
    }

    function View(): Fields
      reads this
    {
      Fields(children, plus, pound, list)
    }

    method SetList(inPound: bool, l: seq<Entry>)
      modifies this
      ensures View() == old(View()).(pound := if inPound then Some(l) else old(pound),
                                     list := if inPound then old(list) else Some(l))
    {
      if inPound {
        pound := Some(l);
      } else {
        list := Some(l);
      }
    }

    /** `malloc`, `memset`, and HASH_ADD_STR into `plus_children` or `children`. */
    method AddChild(e: Edge, ghost at: Addr) returns (child: TrieNode)
      modifies this
      ensures fresh(child) && child.at == at && child.key == EdgeToken(e) && child.View() == NEW
      ensures View() == old(View()).With(e, child)
    {
      child := new TrieNode(EdgeToken(e), at);
      if e.Plus? {
        plus := child;
      } else {
        children := children[e.name := child];
      }
    }

    /** HASH_DEL, from the table that the key of the deleted node points to. */
    method Detach(child: TrieNode, ghost e: Edge)
      requires child.key == EdgeToken(e) && e != Lit("+")
      modifies this
      ensures View() == old(View()).Without(e)
    {
      if child.key == "+" {
        plus := null;
      } else {
        children := children - {child.key};
      }
    }
  }

  /** What the fields of a node hold. */
  datatype Fields = Fields(children: map<string, TrieNode>, plus: TrieNode?,
                           pound: Option<seq<Entry>>, list: Option<seq<Entry>>)
  {
    /** `flag == 0` in the DELETE macro. */
    predicate Dead()
    {
      children == map[] && plus == null && list in {None, Some([])} && pound in {None, Some([])}
    }

    function Next(e: Edge): TrieNode?
    {
      match e
      case Plus => plus
      case Lit(k) => if k in children then children[k] else null
    }

    function ListAt(p: Path): Option<seq<Entry>>
    {
      if p.Pound? then pound else list
    }

    function WithList(p: Path, l: seq<Entry>): Fields
    {
      if p.Pound? then this.(pound := Some(l)) else this.(list := Some(l))
    }

    function With(e: Edge, child: TrieNode): Fields
    {
      match e
      case Plus => this.(plus := child)
      case Lit(k) => this.(children := children[k := child])
    }

    function Without(e: Edge): Fields
    {
      match e
      case Plus => this.(plus := null)
      case Lit(k) => this.(children := children - {k})
    }
  }

  /** A node fresh from `malloc` and `memset`. */
  ghost const NEW: Fields := Fields(map[], null, None, None)

  type Views = map<Addr, Fields>

  ghost predicate Below(nodes: map<Addr, TrieNode>, a: Addr)
    requires a in nodes && a.Child?
  {
    && a.parent in nodes
    && nodes[a].key == EdgeToken(a.last)
    && GoodEdge(a.parent, a.last)
  }

  ghost function At(nodes: map<Addr, TrieNode>, a: Addr): TrieNode?
  {
    if a in nodes then nodes[a] else null
  }

  /** The pointers form the tree that `nodes` describes, and no node is shared. */
  ghost predicate Linked(nodes: map<Addr, TrieNode>, views: Views)
  {
    && views.Keys == nodes.Keys
    && Root in nodes && Sys in nodes
    && (forall a :: a in nodes ==> nodes[a].at == a)
    && (forall a {:trigger Below(nodes, a)} :: a in nodes && a.Child? ==> Below(nodes, a))
    && (forall a, e {:trigger views[a].Next(e)} :: a in nodes ==> views[a].Next(e) == At(nodes, Child(a, e)))
  }

  /** The lists at the nodes are those of the store. */
  ghost predicate Stored(store: Store, views: Views)
  {
    && (forall a :: a in views ==> views[a].list == Get(store, Exact(a)) && views[a].pound == Get(store, Pound(a)))
    && (forall p :: p in store ==> p.at in views && Strict(store[p]))
  }

  /** Every node, save perhaps one, holds a subscriber or has a child. */
  ghost predicate NoDead(views: Views, but: Addr)
  {
    forall a :: a in views && a.Child? && a != but ==> !views[a].Dead()
  }

  ghost predicate Shape(nodes: map<Addr, TrieNode>, store: Store, views: Views, but: Addr)
  {
    Linked(nodes, views) && Stored(store, views) && NoDead(views, but)
  }

  lemma ChildIsNext(nodes: map<Addr, TrieNode>, views: Views, a: Addr, e: Edge)
    requires Linked(nodes, views) && a in nodes
    ensures views[a].Next(e) == At(nodes, Child(a, e))
  {
  }

  // ---------- steps on the tree, as values ----------

  lemma EmptyTrie(nodes: map<Addr, TrieNode>)
    requires nodes.Keys == {Root, Sys} && nodes[Root].at == Root && nodes[Sys].at == Sys
    ensures Shape(nodes, map[], map[Root := NEW, Sys := NEW], Root)
  {
  }

  lemma KeyOfChild(nodes: map<Addr, TrieNode>, views: Views, a: Addr, e: Edge)
    requires Linked(nodes, views) && Child(a, e) in nodes
    ensures nodes[Child(a, e)].key == EdgeToken(e)
  {
    assert Below(nodes, Child(a, e));
  }

  lemma MissingNode(nodes: map<Addr, TrieNode>, views: Views, a: Addr, e: Edge)
    requires Linked(nodes, views) && a in nodes && views[a].Next(e) == null
    ensures Child(a, e) !in nodes
  {
  }

  lemma AddedNode(nodes: map<Addr, TrieNode>, views: Views, a: Addr, e: Edge, child: TrieNode)
    requires Linked(nodes, views) && a in nodes && GoodEdge(a, e) && views[a].Next(e) == null
    requires child.at == Child(a, e) && child.key == EdgeToken(e)
    ensures Child(a, e) !in nodes
    ensures Linked(nodes[Child(a, e) := child],
                   views[a := views[a].With(e, child)][Child(a, e) := NEW])
  {
    var c := Child(a, e);
    var nodes' := nodes[c := child];
    var views' := views[a := views[a].With(e, child)][c := NEW];
    forall b | b in nodes' && b.Child?
      ensures Below(nodes', b)
    {
      if b != c {
        assert Below(nodes, b);
      }
    }
    forall b, f | b in nodes'
      ensures views'[b].Next(f) == At(nodes', Child(b, f))
    {
      if b == c {
        assert !(Child(c, f) in nodes && Below(nodes, Child(c, f)));
      } else {
        assert views[b].Next(f) == At(nodes, Child(b, f));
      }
    }
  }

  lemma AddedNodeStored(store: Store, views: Views, a: Addr, e: Edge, child: TrieNode)
    requires Stored(store, views) && a in views && Child(a, e) !in views
    ensures Stored(store, views[a := views[a].With(e, child)][Child(a, e) := NEW])
  {
    var views' := views[a := views[a].With(e, child)][Child(a, e) := NEW];
    forall b | b in views'
      ensures views'[b].list == Get(store, Exact(b)) && views'[b].pound == Get(store, Pound(b))
    {
      assert b == Child(a, e) || b in views;
    }
  }

  lemma AddedNodeAlive(views: Views, a: Addr, e: Edge, child: TrieNode)
    requires NoDead(views, a) && a in views
    ensures NoDead(views[a := views[a].With(e, child)][Child(a, e) := NEW], Child(a, e))
  {
    if e.Lit? {
      assert e.name in views[a].With(e, child).children;
    }
  }

  lemma AddNode(nodes: map<Addr, TrieNode>, store: Store, views: Views, a: Addr, e: Edge, child: TrieNode)
    requires Shape(nodes, store, views, a)
    requires a in nodes && GoodEdge(a, e) && views[a].Next(e) == null
    requires child.at == Child(a, e) && child.key == EdgeToken(e)
    ensures Child(a, e) !in nodes
    ensures Shape(nodes[Child(a, e) := child], store,
                  views[a := views[a].With(e, child)][Child(a, e) := NEW], Child(a, e))
  {
    AddedNode(nodes, views, a, e, child);
    AddedNodeStored(store, views, a, e, child);
    AddedNodeAlive(views, a, e, child);
  }

  lemma FoundNode(nodes: map<Addr, TrieNode>, store: Store, views: Views, a: Addr, e: Edge)
    requires Shape(nodes, store, views, a)
    requires a in nodes && views[a].Next(e) != null
    ensures Child(a, e) in nodes && nodes[Child(a, e)] == views[a].Next(e)
    ensures Shape(nodes, store, views, Child(a, e))
  {
    if e.Lit? {
      assert e.name in views[a].children;
    }
  }

  lemma AddEntryView(nodes: map<Addr, TrieNode>, store: Store, views: Views, p: Path)
    requires Shape(nodes, store, views, p.at) && p.at in nodes
    ensures views[p.at].ListAt(p) == Get(store, p)
    ensures Strict(Or(Get(store, p)))
  {
  }

  lemma ReplacedListLinked(nodes: map<Addr, TrieNode>, views: Views, p: Path, l: seq<Entry>)
    requires Linked(nodes, views) && p.at in nodes
    ensures Linked(nodes, views[p.at := views[p.at].WithList(p, l)])
  {
    var views' := views[p.at := views[p.at].WithList(p, l)];
    forall b, f | b in nodes
      ensures views'[b].Next(f) == At(nodes, Child(b, f))
    {
      assert views[b].Next(f) == At(nodes, Child(b, f));
    }
  }

  lemma ReplacedListStored(store: Store, views: Views, p: Path, l: seq<Entry>)
    requires Stored(store, views) && p.at in views && Strict(l)
    ensures Stored(store[p := l], views[p.at := views[p.at].WithList(p, l)])
  {
  }

  lemma AddEntry(nodes: map<Addr, TrieNode>, store: Store, views: Views, p: Path, l: seq<Entry>)
    requires Shape(nodes, store, views, p.at) && p.at in nodes && Strict(l) && l != []
    ensures Shape(nodes, store[p := l], views[p.at := views[p.at].WithList(p, l)], Root)
  {
    ReplacedListLinked(nodes, views, p, l);
    ReplacedListStored(store, views, p, l);
  }

  // ---------- deletion, as values ----------

  lemma RemoveEntry(nodes: map<Addr, TrieNode>, store: Store, views: Views, p: Path, client: string)
    requires Shape(nodes, store, views, Root) && p in store
    ensures p.at in nodes && Strict(store[p]) && views[p.at].ListAt(p) == Some(store[p])
    ensures var l := RemoveAtMiddle(store[p], client);
      Shape(nodes, store[p := l], views[p.at := views[p.at].WithList(p, l)], p.at)
  {
    var l := RemoveAtMiddle(store[p], client);
    RemovalIsExact(store[p], client);
    ReplacedListLinked(nodes, views, p, l);
    ReplacedListStored(store, views, p, l);
  }

  lemma DeadHasNoChild(nodes: map<Addr, TrieNode>, views: Views, a: Addr, e: Edge)
    requires Linked(nodes, views) && a in nodes && views[a].Dead()
    ensures Child(a, e) !in nodes
  {
    assert views[a].Next(e) == At(nodes, Child(a, e));
  }

  ghost function Cut<T>(m: map<Addr, T>, c: Addr): map<Addr, T>
  {
    map b | b in m && b != c :: m[b]
  }

  ghost function CutStore(store: Store, c: Addr): Store
  {
    map p | p in store && p.at != c :: store[p]
  }

  lemma CutNodeLinked(nodes: map<Addr, TrieNode>, views: Views, a: Addr, e: Edge)
    requires Linked(nodes, views) && a in nodes && Child(a, e) in nodes && views[Child(a, e)].Dead()
    ensures Linked(Cut(nodes, Child(a, e)), Cut(views[a := views[a].Without(e)], Child(a, e)))
  {
    var c := Child(a, e);
    var nodes', views' := Cut(nodes, c), Cut(views[a := views[a].Without(e)], c);
    forall b | b in nodes' && b.Child?
      ensures Below(nodes', b)
    {
      assert Below(nodes, b);
      DeadHasNoChild(nodes, views, c, b.last);
    }
    forall b, f | b in nodes'
      ensures views'[b].Next(f) == At(nodes', Child(b, f))
    {
      assert views[b].Next(f) == At(nodes, Child(b, f));
    }
  }

  lemma CutNodeStored(store: Store, views: Views, a: Addr, e: Edge)
    requires Stored(store, views) && a in views && Child(a, e) in views && views[Child(a, e)].Dead()
    ensures var c := Child(a, e);
      && Or(Get(store, Exact(c))) == [] && Or(Get(store, Pound(c))) == []
      && Stored(CutStore(store, c), Cut(views[a := views[a].Without(e)], c))
  {
    var c := Child(a, e);
    var store', views' := CutStore(store, c), Cut(views[a := views[a].Without(e)], c);
    forall b | b in views'
      ensures views'[b].list == Get(store', Exact(b)) && views'[b].pound == Get(store', Pound(b))
    {
      assert b in views;
    }
  }

  lemma ParentDiffers(a: Addr)
    requires a.Child?
    ensures a != a.parent
  {
    assert Depth(a) == Depth(a.parent) + 1;
  }

  lemma CutNode(nodes: map<Addr, TrieNode>, store: Store, views: Views, a: Addr, e: Edge)
    requires Shape(nodes, store, views, Child(a, e))
    requires a in nodes && Child(a, e) in nodes && views[Child(a, e)].Dead()
    ensures var c := Child(a, e);
      && Or(Get(store, Exact(c))) == [] && Or(Get(store, Pound(c))) == []
      && c != a && Shape(Cut(nodes, c), CutStore(store, c), Cut(views[a := views[a].Without(e)], c), a)
  {
    ParentDiffers(Child(a, e));
    CutNodeLinked(nodes, views, a, e);
    CutNodeStored(store, views, a, e);
  }

  lemma {:induction false} NothingBelowAMissingNode(nodes: map<Addr, TrieNode>, views: Views, x: Addr, c: Addr)
    requires Linked(nodes, views) && Extends(x, c) && c !in nodes
    ensures x !in nodes
  {
    if x != c {
      NothingBelowAMissingNode(nodes, views, x.parent, c);
      assert x in nodes ==> Below(nodes, x);
    }
  }

  /** The subscriber is removed from one list. */
  ghost function Updated(store: Store, p: Path, client: string): Store
  {
    if p in store then store[p := RemoveAtMiddle(store[p], client)] else store
  }

  /** Only lists that are empty have vanished, together with their nodes. */
  ghost predicate Thinned(updated: Store, keys: set<Addr>, store: Store)
  {
    && (forall q :: q in store ==> q in updated && store[q] == updated[q])
    && (forall q :: q in updated && q !in store ==> updated[q] == [] && q.at !in keys)
  }

  lemma ThinnedThenCut(updated: Store, keys: set<Addr>, store: Store, c: Addr)
    requires Thinned(updated, keys, store)
    requires Or(Get(store, Exact(c))) == [] && Or(Get(store, Pound(c))) == []
    ensures Thinned(updated, keys - {c}, CutStore(store, c))
  {
  }

  lemma NothingToRemove(nodes: map<Addr, TrieNode>, store: Store, views: Views, p: Path, client: string, a: Addr,
                        ts: seq<string>)
    requires Linked(nodes, views) && Stored(store, views)
    requires a !in nodes && p == Walk(a, ts)
    ensures Updated(store, p, client) == store
  {
    WalkExtends(a, ts);
    NothingBelowAMissingNode(nodes, views, p.at, a);
  }

  /** No dead branches: below every node there is a subscriber. */
  lemma {:induction false} EveryNodeIsLive(nodes: map<Addr, TrieNode>, store: Store, views: Views, a: Addr)
    requires Shape(nodes, store, views, Root) && a in nodes && a.Child?
    ensures Live(store, a)
    decreases DeeperNodes(nodes, a)
  {
    assert !views[a].Dead();
    if views[a].list.Some? && views[a].list.value != [] {
      assert Extends(Exact(a).at, a);
    } else if views[a].pound.Some? && views[a].pound.value != [] {
      assert Extends(Pound(a).at, a);
    } else if views[a].plus != null {
      LiveThroughChild(nodes, store, views, a, Plus);
    } else {
      var k :| k in views[a].children;
      LiveThroughChild(nodes, store, views, a, Lit(k));
    }
  }

  ghost function DeeperNodes(nodes: map<Addr, TrieNode>, a: Addr): set<Addr>
  {
    set b | b in nodes.Keys && Depth(b) > Depth(a)
  }

  lemma {:induction false} LiveThroughChild(nodes: map<Addr, TrieNode>, store: Store, views: Views, a: Addr, e: Edge)
    requires Shape(nodes, store, views, Root) && a in nodes && views[a].Next(e) != null
    ensures Live(store, a)
    decreases DeeperNodes(nodes, a), 0
  {
    var c := Child(a, e);
    ChildIsNext(nodes, views, a, e);
    assert Depth(c) == Depth(a) + 1;
    assert c in DeeperNodes(nodes, a) && c !in DeeperNodes(nodes, c);
    assert DeeperNodes(nodes, c) <= DeeperNodes(nodes, a);
    EveryNodeIsLive(nodes, store, views, c);
    var p :| p in store && store[p] != [] && Extends(p.at, c);
    ExtendsTransitive(p.at, c, a);
  }

  lemma AliveStoreIsPruned(nodes: map<Addr, TrieNode>, store: Store, views: Views)
    requires Shape(nodes, store, views, Root)
    ensures Pruned(store) == store
  {
    forall q | q in store
      ensures Kept(store, q)
    {
      if q.at.Child? {
        EveryNodeIsLive(nodes, store, views, q.at);
      }
    }
  }

  lemma SurvivorsAreKept(nodes: map<Addr, TrieNode>, store: Store, views: Views, updated: Store, q: Path)
    requires Shape(nodes, store, views, Root) && Thinned(updated, nodes.Keys, store) && q in store
    ensures Kept(updated, q)
  {
    if q.at.Child? {
      EveryNodeIsLive(nodes, store, views, q.at);
      var r :| r in store && store[r] != [] && Extends(r.at, q.at);
      assert r in updated;
    }
  }

  lemma KeptSurvives(nodes: map<Addr, TrieNode>, store: Store, views: Views, updated: Store, q: Path)
    requires Shape(nodes, store, views, Root) && Thinned(updated, nodes.Keys, store)
    requires q in updated && Kept(updated, q) && (q.at.Child? || q.at in nodes)
    ensures q in store
  {
    if q !in store && q.at.Child? {
      var r :| r in updated && updated[r] != [] && Extends(r.at, q.at);
      assert r in store;
      NothingBelowAMissingNode(nodes, views, r.at, q.at);
    }
  }

  lemma ThinnedIsPruned(nodes: map<Addr, TrieNode>, store: Store, views: Views, updated: Store)
    requires Shape(nodes, store, views, Root) && Thinned(updated, nodes.Keys, store)
    ensures store == Pruned(updated)
  {
    forall q | q in store
      ensures q in Pruned(updated) && Pruned(updated)[q] == store[q]
    {
      SurvivorsAreKept(nodes, store, views, updated, q);
    }
    forall q | q in Pruned(updated)
      ensures q in store
    {
      KeptSurvives(nodes, store, views, updated, q);
    }
  }
}
