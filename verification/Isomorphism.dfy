/** Two catalogs that are the same up to the ids of their instances and links, and why one
    conforms exactly when the other does. */
module Isomorphism {
  import opened Domain
  import opened Conformance
  import opened Cardinality

  type IdMap = map<Id, Id>

  function ImageOf(f: IdMap, s: set<Id>): set<Id>
    requires s <= f.Keys
  {
    set a | a in s :: f[a]
  }

  lemma {:induction false} ImageKeepsSize(f: IdMap, s: set<Id>)
    requires Injective(f) && s <= f.Keys
    ensures |ImageOf(f, s)| == |s|
  {
    if s != {} {
      var a :| a in s;
      ImageKeepsSize(f, s - {a});
      assert ImageOf(f, s) == ImageOf(f, s - {a}) + {f[a]};
      assert f[a] !in ImageOf(f, s - {a});
    }
  }

  lemma MapGrows(f: IdMap, a: Id, b: Id)
    requires a !in f
    ensures f[a := b].Values == f.Values + {b}
    ensures Injective(f) && b !in f.Values ==> Injective(f[a := b])
  {
    var g := f[a := b];
    forall y | y in f.Values + {b}
      ensures y in g.Values
    {
      if y == b {
        assert g[a] == b;
      } else {
        var x :| x in f && f[x] == y;
        assert g[x] == y;
      }
    }
    forall x | x in f
      ensures f[x] in f.Values
    {
    }
  }

  // ---- isomorphic views ----

  ghost predicate SameSchema(v: CatalogView, w: CatalogView) {
    w.pinned == v.pinned && w.attributes == v.attributes && w.associations == v.associations && w.typeDefs == v.typeDefs
  }

  /** The parents correspond. */
  ghost predicate SameParent(v: CatalogView, w: CatalogView, f: IdMap, i: Id)
    requires i in v.members && i in f && f[i] in w.members
  {
    match v.members[i].parent
    case None => w.members[f[i]].parent.None?
    case Some(p) => p in f && w.members[f[i]].parent == Some(f[p])
  }

  ghost predicate SameRows(v: CatalogView, w: CatalogView, f: IdMap, i: Id)
    requires i in v.members && i in f && f[i] in w.members
  {
    forall a {:trigger KeyOf(v, i, a)} {:trigger KeyOf(w, f[i], a)} ::
      && (KeyOf(v, i, a) in v.rows <==> KeyOf(w, f[i], a) in w.rows)
      && (KeyOf(v, i, a) in v.rows && KeyOf(w, f[i], a) in w.rows ==> w.rows[KeyOf(w, f[i], a)] == v.rows[KeyOf(v, i, a)])
  }

  ghost predicate SameInstance(v: CatalogView, w: CatalogView, f: IdMap, i: Id)
    requires i in v.members && i in f && f[i] in w.members
  {
    && w.members[f[i]].typeId == v.members[i].typeId && w.members[f[i]].name == v.members[i].name
    && SameParent(v, w, f, i) && SameRows(v, w, f, i)
  }

  ghost predicate SameLink(v: CatalogView, w: CatalogView, f: IdMap, g: IdMap, l: Id)
    requires l in v.links && l in g
  {
    && v.links[l].source in f && v.links[l].target in f && g[l] in w.links
    && w.links[g[l]] == Link(v.links[l].assoc, f[v.links[l].source], f[v.links[l].target])
  }

  /** "f" and "g" carry the instances and links of one view to those of the other. */
  ghost predicate Isomorphic(v: CatalogView, w: CatalogView, f: IdMap, g: IdMap) {
    && SameSchema(v, w)
    && f.Keys == v.members.Keys && f.Values == w.members.Keys && Injective(f)
    && g.Keys == v.links.Keys && g.Values == w.links.Keys && Injective(g)
    && (forall i :: i in v.members ==> f[i] in w.members && SameInstance(v, w, f, i))
    && (forall l :: l in v.links ==> SameLink(v, w, f, g, l))
  }

  /** Every member of the second view is the image of one of the first. */
  lemma Preimage(f: IdMap, y: Id) returns (x: Id)
    requires y in f.Values
    ensures x in f && f[x] == y
  {
    x :| x in f && f[x] == y;
  }

  lemma ForwardCorrespond(v: CatalogView, w: CatalogView, f: IdMap, g: IdMap, i: Id, s: Id)
    requires Isomorphic(v, w, f, g) && i in v.members
    ensures |ForwardLinks(w, f[i], s)| == |ForwardLinks(v, i, s)|
  {
    hide SameInstance, SameSchema;
    forall m | m in ForwardLinks(w, f[i], s)
      ensures m in ImageOf(g, ForwardLinks(v, i, s))
    {
      var l := Preimage(g, m);
      assert SameLink(v, w, f, g, l);
    }
    assert ImageOf(g, ForwardLinks(v, i, s)) == ForwardLinks(w, f[i], s);
    ImageKeepsSize(g, ForwardLinks(v, i, s));
  }

  lemma ReverseCorrespond(v: CatalogView, w: CatalogView, f: IdMap, g: IdMap, i: Id, s: Id)
    requires Isomorphic(v, w, f, g) && i in v.members
    ensures |ReverseLinks(w, f[i], s)| == |ReverseLinks(v, i, s)|
  {
    hide SameInstance, SameSchema;
    forall m | m in ReverseLinks(w, f[i], s)
      ensures m in ImageOf(g, ReverseLinks(v, i, s))
    {
      var l := Preimage(g, m);
      assert SameLink(v, w, f, g, l);
    }
    assert ImageOf(g, ReverseLinks(v, i, s)) == ReverseLinks(w, f[i], s);
    ImageKeepsSize(g, ReverseLinks(v, i, s));
  }

  lemma ChildrenCorrespond(v: CatalogView, w: CatalogView, f: IdMap, g: IdMap, i: Id, t: Id)
    requires Isomorphic(v, w, f, g) && i in v.members
    ensures |ChildrenOf(w, f[i], t)| == |ChildrenOf(v, i, t)|
  {
    hide SameLink, SameSchema, SameRows;
    assert ImageOf(f, ChildrenOf(v, i, t)) == ChildrenOf(w, f[i], t) by {
      forall c | c in ChildrenOf(v, i, t)
        ensures f[c] in ChildrenOf(w, f[i], t)
      {
        assert SameInstance(v, w, f, c);
      }
      forall c | c in ChildrenOf(w, f[i], t)
        ensures c in ImageOf(f, ChildrenOf(v, i, t))
      {
        var x := Preimage(f, c);
        assert SameInstance(v, w, f, x);
      }
    }
    ImageKeepsSize(f, ChildrenOf(v, i, t));
  }

  lemma SchemaCorresponds(v: CatalogView, w: CatalogView, f: IdMap, g: IdMap, i: Id)
    requires Isomorphic(v, w, f, g) && i in v.members
    ensures i in f && f[i] in w.members && SameInstance(v, w, f, i) && SameSchema(v, w)
    ensures forall a :: AttributeOf(w, a, f[i]) <==> AttributeOf(v, a, i)
    ensures forall s :: AssociationOf(w, s, f[i]) <==> AssociationOf(v, s, i)
  {
    hide SameLink, SameRows, SameParent;
  }

  lemma ValuesCorrespond(v: CatalogView, w: CatalogView, f: IdMap, r: Rules, i: Id, a: Id)
    requires i in v.members && i in f && f[i] in w.members && SameInstance(v, w, f, i) && SameSchema(v, w)
    requires AttributeOf(v, a, i) && AttributeOf(w, a, f[i])
    ensures SchemaSound(w, r, a) == SchemaSound(v, r, a)
    ensures ValueSound(w, r, f[i], a) == ValueSound(v, r, i, a)
  {
    hide WithinType, SameParent;
    assert KeyOf(v, i, a) in v.rows <==> KeyOf(w, f[i], a) in w.rows;
  }

  lemma ParentsCorrespond(v: CatalogView, w: CatalogView, f: IdMap, g: IdMap, i: Id)
    requires Isomorphic(v, w, f, g) && i in v.members
    ensures f[i] in w.members && ParentSound(w, f[i]) == ParentSound(v, i)
  {
    hide ParseCardinality, SameRows, SameLink;
    assert SameInstance(v, w, f, i);
    if v.members[i].parent.Some? {
      var p := v.members[i].parent.value;
      SchemaCorresponds(v, w, f, g, p);
      assert MayContain(w, f[p], f[i]) == MayContain(v, p, i);
    } else {
      assert MustBeContained(w, v.members[i].typeId) == MustBeContained(v, v.members[i].typeId);
    }
  }

  lemma InstanceCorresponds(v: CatalogView, w: CatalogView, f: IdMap, g: IdMap, r: Rules, i: Id)
    requires Isomorphic(v, w, f, g) && i in v.members
    ensures f[i] in w.members && InstanceConforms(w, r, f[i]) == InstanceConforms(v, r, i)
  {
    hide Isomorphic, ParentSound, SchemaSound, ValueSound, IsDnsLabel, SourceRange, TargetRange, SourceChecked,
         ForwardLinks, ReverseLinks, ChildrenOf, SameRows, SameParent, InRange;
    SchemaCorresponds(v, w, f, g, i);
    ParentsCorrespond(v, w, f, g, i);
    forall a | AttributeOf(v, a, i)
      ensures SchemaSound(w, r, a) == SchemaSound(v, r, a) && ValueSound(w, r, f[i], a) == ValueSound(v, r, i, a)
    {
      ValuesCorrespond(v, w, f, r, i, a);
    }
    RangesCorrespond(v, w);
    forall s
      ensures |ForwardLinks(w, f[i], s)| == |ForwardLinks(v, i, s)|
      ensures |ReverseLinks(w, f[i], s)| == |ReverseLinks(v, i, s)|
    {
      ForwardCorrespond(v, w, f, g, i, s);
      ReverseCorrespond(v, w, f, g, i, s);
    }
    forall t
      ensures |ChildrenOf(w, f[i], t)| == |ChildrenOf(v, i, t)|
    {
      ChildrenCorrespond(v, w, f, g, i, t);
    }
    assert IsPinned(w, v.members[i].typeId) == IsPinned(v, v.members[i].typeId);
  }

  lemma RangesCorrespond(v: CatalogView, w: CatalogView)
    requires SameSchema(v, w)
    ensures forall s :: s in v.associations ==> SourceRange(w, s) == SourceRange(v, s) && TargetRange(w, s) == TargetRange(v, s)
  {
    hide ParseCardinality;
  }

  /** Validity does not depend on ids. */
  lemma IsomorphicConform(v: CatalogView, w: CatalogView, f: IdMap, g: IdMap, r: Rules)
    requires Isomorphic(v, w, f, g)
    ensures Conforms(w, r) <==> Conforms(v, r)
  {
    hide InstanceConforms, SameInstance, SameLink, SameSchema;
    forall i | i in v.members
      ensures f[i] in w.members && InstanceConforms(w, r, f[i]) == InstanceConforms(v, r, i)
    {
      InstanceCorresponds(v, w, f, g, r, i);
    }
    forall j | j in w.members
      ensures exists i :: i in v.members && f[i] == j
    {
      var i := Preimage(f, j);
    }
  }
}
