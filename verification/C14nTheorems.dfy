/** Canonicalisation keeps the namespace meaning of every prefixed name, is idempotent
    and emits no superfluous declaration. */
module C14nTheorems {
  import opened Basics
  import opened XmlModel
  import opened Ordering
  import opened C14nSpec

  // ------------------------------------------------- reading the output back

  function DeclAttrs(ds: seq<Binding>): seq<Attr> {
    seq(|ds|, i requires 0 <= i < |ds| => Attr(DeclKey(ds[i].prefix), ds[i].uri))
  }

  function PlainAttrs(attrs: seq<AttrItem>): seq<Attr> {
    seq(|attrs|, i requires 0 <= i < |attrs| =>
      Attr(Join(attrs[i].prefix, attrs[i].local), attrs[i].value))
  }

  /** The event a parser delivers for one piece of canonical output. */
  function EventOf(t: Token): Event {
    match t
    case OpenTag(prefix, local, decls, attrs) =>
      Start(Join(prefix, local), DeclAttrs(decls) + PlainAttrs(attrs))
    case CloseTag(prefix, local) => End(Join(prefix, local))
    case TextRun(text) => Text(text)
    case CommentNode(body) => Comment(body)
    case PINode(body) => PI(body)
  }

  function EventsOf(ts: seq<Token>): seq<Event> {
    if ts == [] then [] else [EventOf(ts[0])] + EventsOf(ts[1..])
  }

  function SortItem(it: Item): Item {
    if it.Open? then it.(attrs := Sort(AttrLe, it.attrs)) else it
  }

  function SortItems(items: seq<Item>): seq<Item> {
    if items == [] then [] else [SortItem(items[0])] + SortItems(items[1..])
  }

  // ------------------------------------------------------------- used bindings

  ghost predicate Uses(prefix: string, attrs: seq<AttrItem>, p: string) {
    p != "" && (p == prefix || exists i :: 0 <= i < |attrs| && attrs[i].prefix == p)
  }

  lemma {:induction false} BindingsDomain(prefix: string, uri: string, attrs: seq<AttrItem>, p: string)
    ensures p in Bindings(prefix, uri, attrs) <==> Uses(prefix, attrs, p)
  {
    if attrs != [] {
      var n := |attrs| - 1;
      BindingsDomain(prefix, uri, attrs[..n], p);
      if Uses(prefix, attrs[..n], p) && p != prefix {
        var i :| 0 <= i < n && attrs[..n][i].prefix == p;
        assert attrs[i].prefix == p;
      }
      if Uses(prefix, attrs, p) && p != prefix {
        var i :| 0 <= i < |attrs| && attrs[i].prefix == p;
        if i < n { assert attrs[..n][i].prefix == p; }
      }
    }
  }

  /** Equal prefixes carry equal URIs, as they do when all come from one scope. */
  ghost predicate Agrees(it: Item, b: Scope)
    requires it.Open?
  {
    && (if it.prefix == "" then it.uri == "" else it.prefix in b && b[it.prefix] == it.uri)
    && (forall i :: 0 <= i < |it.attrs| ==>
         if it.attrs[i].prefix == "" then it.attrs[i].uri == ""
         else it.attrs[i].prefix in b && b[it.attrs[i].prefix] == it.attrs[i].uri)
  }

  function Used(it: Item): Scope
    requires it.Open?
  {
    Bindings(it.prefix, it.uri, it.attrs)
  }

  /** An item as the resolver produces it: names split, URIs consistent, no attribute
      that would be written as a declaration. */
  ghost predicate Sound(it: Item) {
    match it
    case Open(prefix, local, uri, attrs) =>
      && ':' !in local
      && Agrees(it, Used(it))
      && (forall i :: 0 <= i < |attrs| ==>
           ':' !in attrs[i].local && !IsDecl(Join(attrs[i].prefix, attrs[i].local)))
    case Close(_, local) => ':' !in local
    case _ => true
  }

  lemma {:induction false} BindingsFromScope(prefix: string, attrs: seq<AttrItem>, scope: Scope, p: string)
    requires forall i :: 0 <= i < |attrs| ==> attrs[i].uri == UriOf(scope, attrs[i].prefix)
    ensures var b := Bindings(prefix, UriOf(scope, prefix), attrs);
            p in b ==> p != "" && b[p] == Lookup(scope, p)
  {
    if attrs != [] {
      BindingsFromScope(prefix, attrs[..|attrs| - 1], scope, p);
    }
  }

  /** What the resolver makes of an attribute. */
  ghost predicate AttrSound(scope: Scope, x: AttrItem) {
    x.uri == UriOf(scope, x.prefix) && ':' !in x.local && !IsDecl(Join(x.prefix, x.local))
  }

  lemma {:induction false} ResolvedAttrIs(scope: Scope, a: Attr)
    requires !IsDecl(a.key) && a.key != ":xmlns"
    ensures AttrSound(scope, ResolveAttr(scope, a))
  {
    var x := ResolveAttr(scope, a);
    if a.key != Join(x.prefix, x.local) {
      assert a.key == ":" + x.local;
      assert a.key[0] == ':';
      assert x.prefix == "";
      assert |x.local| > 5 ==> x.local[5] in x.local;
    }
  }

  lemma {:induction false} ResolvedAttrsAre(scope: Scope, attrs: seq<Attr>)
    requires forall a :: a in attrs ==> a.key != ":xmlns"
    ensures forall x :: x in ResolveAttrs(scope, attrs) ==> AttrSound(scope, x)
  {
    if attrs != [] {
      var n := |attrs| - 1;
      ResolvedAttrsAre(scope, attrs[..n]);
      assert attrs[n] in attrs;
      if !IsDecl(attrs[n].key) { ResolvedAttrIs(scope, attrs[n]); }
    }
  }

  /** No attribute is spelled `:xmlns`, the one spelling the serialiser would turn into a
      declaration by dropping the empty prefix. */
  ghost predicate PlainEvent(e: Event) {
    (e.Start? || e.Empty?) ==> forall a :: a in e.attrs ==> a.key != ":xmlns"
  }

  lemma {:induction false} OpenItemSound(name: string, attrs: seq<Attr>, scope: Scope)
    requires forall a :: a in attrs ==> a.key != ":xmlns"
    ensures Sound(OpenItem(name, attrs, scope))
    ensures forall p :: p in Used(OpenItem(name, attrs, scope)) ==>
              p != "" && Used(OpenItem(name, attrs, scope))[p] == Lookup(scope, p)
  {
    ResolvedAttrsAre(scope, attrs);
    var it := OpenItem(name, attrs, scope);
    forall i | 0 <= i < |it.attrs|
      ensures it.attrs[i].uri == UriOf(scope, it.attrs[i].prefix) && ':' !in it.attrs[i].local
      ensures !IsDecl(Join(it.attrs[i].prefix, it.attrs[i].local))
    {
      assert AttrSound(scope, ResolveAttrs(scope, attrs)[i]);
    }
    forall p ensures p in Used(it) ==> p != "" && Used(it)[p] == Lookup(scope, p)
    {
      BindingsFromScope(it.prefix, it.attrs, scope, p);
    }
    BindingsDomain(it.prefix, it.uri, it.attrs, it.prefix);
    forall i | 0 <= i < |it.attrs| && it.attrs[i].prefix != "" ensures it.attrs[i].prefix in Used(it) {
      BindingsDomain(it.prefix, it.uri, it.attrs, it.attrs[i].prefix);
    }
  }

  lemma {:induction false} ResolvedSound(evs: seq<Event>, scopes: seq<Scope>, wc: bool)
    requires forall e :: e in evs ==> PlainEvent(e)
    ensures forall it :: it in Resolve(evs, scopes, wc) ==> Sound(it) && (it.Remark? ==> wc)
  {
    if evs != [] {
      ResolvedSound(evs[1..], ScopesAfter(evs[0], scopes), wc);
      var e := evs[0];
      assert PlainEvent(e);
      if e.Start? || e.Empty? {
        OpenItemSound(e.name, e.attrs, Extend(Top(scopes), e.attrs));
      }
      forall it | it in ItemsOf(e, scopes, wc) ensures Sound(it) && (it.Remark? ==> wc) {}
    }
  }

  // ------------------------------------------------------ one element, read back

  lemma {:induction false} ExtendSnoc(scope: Scope, attrs: seq<Attr>, key: string, value: string)
    ensures var rest := Extend(scope, attrs);
            Extend(scope, attrs + [Attr(key, value)])
            == if IsDecl(key) then rest[DeclPrefix(key) := value] else rest
  {
    assert (attrs + [Attr(key, value)])[..|attrs|] == attrs;
  }

  lemma {:induction false} ResolveSnoc(scope: Scope, attrs: seq<Attr>, a: Attr)
    ensures var rest := ResolveAttrs(scope, attrs);
            ResolveAttrs(scope, attrs + [a])
            == if IsDecl(a.key) then rest else rest + [ResolveAttr(scope, a)]
  {
    assert (attrs + [a])[..|attrs|] == attrs;
  }

  lemma {:induction false} ExtendPlain(scope: Scope, ds: seq<Attr>, attrs: seq<Attr>)
    requires forall i :: 0 <= i < |attrs| ==> !IsDecl(attrs[i].key)
    ensures Extend(scope, ds + attrs) == Extend(scope, ds)
  {
    if attrs == [] {
      assert ds + attrs == ds;
    } else {
      var n := |attrs| - 1;
      var all := ds + attrs;
      assert all[..|all| - 1] == ds + attrs[..n];
      ExtendPlain(scope, ds, attrs[..n]);
    }
  }

  lemma {:induction false} DeclKeyRoundTrip(p: string)
    ensures IsDecl(DeclKey(p)) && DeclPrefix(DeclKey(p)) == p
  {
    if p != "" { assert ("xmlns:" + p)[..6] == "xmlns:"; }
  }

  lemma {:induction false} ListsInit(ds: seq<Binding>, m: Scope)
    requires Lists(ds, m) && ds != []
    ensures Lists(ds[..|ds| - 1], m - {ds[|ds| - 1].prefix})
  {
    var n := |ds| - 1;
    forall q | q in m - {ds[n].prefix} ensures Binding(q, m[q]) in ds[..n] {
      var i :| 0 <= i < |ds| && ds[i] == Binding(q, m[q]);
      assert ds[..n][i] == ds[i];
    }
  }

  lemma {:induction false} PutBack(scope: Scope, m: Scope, p: string)
    requires p in m
    ensures (scope + (m - {p}))[p := m[p]] == scope + m
  {}

  lemma {:induction false} DeclAttrsSnoc(ds: seq<Binding>)
    requires ds != []
    ensures var n := |ds| - 1;
            DeclAttrs(ds) == DeclAttrs(ds[..n]) + [Attr(DeclKey(ds[n].prefix), ds[n].uri)]
  {}

  lemma {:induction false} PlainAttrsSnoc(attrs: seq<AttrItem>)
    requires attrs != []
    ensures var n := |attrs| - 1;
            PlainAttrs(attrs)
            == PlainAttrs(attrs[..n]) + [Attr(Join(attrs[n].prefix, attrs[n].local), attrs[n].value)]
  {}

  lemma {:induction false} ReresolvedSnoc(scope: Scope, attrs: seq<AttrItem>)
    requires attrs != []
    ensures var n := |attrs| - 1;
            Reresolved(scope, attrs)
            == Reresolved(scope, attrs[..n]) + [attrs[n].(uri := UriOf(scope, attrs[n].prefix))]
  {}

  /** Reading the emitted declarations adds exactly the bindings they list. */
  lemma {:induction false} ExtendDecls(scope: Scope, ds: seq<Binding>, m: Scope)
    requires Lists(ds, m)
    ensures Extend(scope, DeclAttrs(ds)) == scope + m
  {
    if ds == [] {
      assert m == map[] && DeclAttrs(ds) == [];
    } else {
      var n := |ds| - 1;
      var p := ds[n].prefix;
      DeclAttrsSnoc(ds);
      ListsInit(ds, m);
      ExtendDecls(scope, ds[..n], m - {p});
      DeclKeyRoundTrip(p);
      ExtendSnoc(scope, DeclAttrs(ds[..n]), DeclKey(p), m[p]);
      assert p in m && m[p] == ds[n].uri;
      PutBack(scope, m, p);
    }
  }

  function Reresolved(scope: Scope, attrs: seq<AttrItem>): seq<AttrItem> {
    seq(|attrs|, i requires 0 <= i < |attrs| => attrs[i].(uri := UriOf(scope, attrs[i].prefix)))
  }

  lemma {:induction false} ResolveDecls(scope: Scope, ds: seq<Attr>)
    requires forall i :: 0 <= i < |ds| ==> IsDecl(ds[i].key)
    ensures ResolveAttrs(scope, ds) == []
  {
    if ds != [] { ResolveDecls(scope, ds[..|ds| - 1]); }
  }

  lemma {:induction false} ResolvePlain(scope: Scope, ds: seq<Attr>, attrs: seq<AttrItem>)
    requires forall i :: 0 <= i < |ds| ==> IsDecl(ds[i].key)
    requires forall i :: 0 <= i < |attrs| ==>
               ':' !in attrs[i].local && !IsDecl(Join(attrs[i].prefix, attrs[i].local))
    ensures ResolveAttrs(scope, ds + PlainAttrs(attrs)) == Reresolved(scope, attrs)
  {
    if attrs == [] {
      assert ds + PlainAttrs(attrs) == ds;
      ResolveDecls(scope, ds);
    } else {
      var n := |attrs| - 1;
      var a := Attr(Join(attrs[n].prefix, attrs[n].local), attrs[n].value);
      PlainAttrsSnoc(attrs);
      assert ds + PlainAttrs(attrs) == ds + PlainAttrs(attrs[..n]) + [a];
      ResolvePlain(scope, ds, attrs[..n]);
      ResolveSnoc(scope, ds + PlainAttrs(attrs[..n]), a);
      SplitJoin(attrs[n].prefix, attrs[n].local);
      ReresolvedSnoc(scope, attrs);
    }
  }

  /** No rendered binding has the empty URI. */
  ghost predicate NonEmpty(scope: Scope) {
    forall p :: p in scope ==> scope[p] != ""
  }

  /** A prefix that the element uses without a URI is not still bound by a rendered
      ancestor. */
  ghost predicate Unmasked(it: Item, rendered: Scope) {
    it.Open? ==> forall p :: p in Used(it) && Used(it)[p] == "" ==> p !in rendered
  }

  lemma {:induction false} SortedAttrs(attrs: seq<AttrItem>)
    ensures multiset(Sort(AttrLe, attrs)) == multiset(attrs)
    ensures |Sort(AttrLe, attrs)| == |attrs|
    ensures forall x :: x in Sort(AttrLe, attrs) <==> x in attrs
  {
    AttrOrder();
    SortSorts(AttrLe, attrs);
    forall x ensures x in Sort(AttrLe, attrs) <==> x in attrs {
      assert x in multiset(attrs) <==> x in attrs;
      assert x in multiset(Sort(AttrLe, attrs)) <==> x in Sort(AttrLe, attrs);
    }
  }

  /** The scope a reader of the output computes is the rendered set. */
  lemma {:induction false} ReadScope(it: Item, rendered: seq<Scope>)
    requires it.Open? && Sound(it)
    ensures ScopesAfter(EventOf(TokenOf(it, Top(rendered))), rendered) == RenderedAfter(it, rendered)
    ensures var r' := Top(rendered) + Missing(Used(it), Top(rendered));
            ItemsOf(EventOf(TokenOf(it, Top(rendered))), rendered, true)
            == [Open(it.prefix, it.local, UriOf(r', it.prefix), Reresolved(r', Sort(AttrLe, it.attrs)))]
  {
    var r := Top(rendered);
    var m := Missing(Used(it), r);
    var ds := InOrder(m);
    var sorted := Sort(AttrLe, it.attrs);
    SortedAttrs(it.attrs);
    forall i | 0 <= i < |sorted|
      ensures ':' !in sorted[i].local && !IsDecl(Join(sorted[i].prefix, sorted[i].local))
    {
      assert sorted[i] in it.attrs;
    }
    forall i | 0 <= i < |ds| ensures IsDecl(DeclAttrs(ds)[i].key) {
      DeclKeyRoundTrip(ds[i].prefix);
    }
    ExtendPlain(r, DeclAttrs(ds), PlainAttrs(sorted));
    ExtendDecls(r, ds, m);
    ResolvePlain(r + m, DeclAttrs(ds), sorted);
    SplitJoin(it.prefix, it.local);
  }

  /** Looking a used prefix up in the output gives its URI, unless it is masked. */
  lemma {:induction false} UsedResolves(used: Scope, rendered: Scope, p: string)
    requires p in used && NonEmpty(rendered)
    ensures Lookup(rendered + Missing(used, rendered), p) == used[p]
            <==> (used[p] == "" ==> p !in rendered)
  {}

  /** An element survives the round trip exactly when nothing is masked. */
  lemma {:induction false} OpenReadBack(it: Item, rendered: Scope)
    requires it.Open? && Sound(it) && NonEmpty(rendered)
    ensures var r' := rendered + Missing(Used(it), rendered);
            var back := Open(it.prefix, it.local, UriOf(r', it.prefix), Reresolved(r', Sort(AttrLe, it.attrs)));
            back == SortItem(it) <==> Unmasked(it, rendered)
  {
    var r' := rendered + Missing(Used(it), rendered);
    var sorted := Sort(AttrLe, it.attrs);
    SortedAttrs(it.attrs);
    var x := Open(it.prefix, it.local, UriOf(r', it.prefix), Reresolved(r', sorted));
    if Unmasked(it, rendered) {
      if it.prefix != "" { UsedResolves(Used(it), rendered, it.prefix); }
      forall i | 0 <= i < |sorted| ensures Reresolved(r', sorted)[i] == sorted[i] {
        assert sorted[i] in it.attrs;
        if sorted[i].prefix != "" { UsedResolves(Used(it), rendered, sorted[i].prefix); }
      }
      assert Reresolved(r', sorted) == sorted;
    } else {
      var p :| p in Used(it) && Used(it)[p] == "" && p in rendered;
      UsedResolves(Used(it), rendered, p);
      BindingsDomain(it.prefix, it.uri, it.attrs, p);
      if p != it.prefix {
        var i :| 0 <= i < |it.attrs| && it.attrs[i].prefix == p;
        assert it.attrs[i] in sorted;
        var j :| 0 <= j < |sorted| && sorted[j] == it.attrs[i];
        assert Reresolved(r', sorted)[j] != sorted[j];
        assert x.attrs != SortItem(it).attrs;
      }
    }
  }

  // ---------------------------------------------------------------- whole runs

  /** `Unmasked` at every element of a run. */
  ghost predicate NothingMasked(items: seq<Item>, rendered: seq<Scope>) {
    items == []
    || (Unmasked(items[0], Top(rendered)) && NothingMasked(items[1..], RenderedAfter(items[0], rendered)))
  }

  ghost predicate NonEmptyStack(rendered: seq<Scope>) {
    forall i :: 0 <= i < |rendered| ==> NonEmpty(rendered[i])
  }

  lemma {:induction false} StepReadBackOpen(it: Item, rendered: seq<Scope>, wc: bool)
    requires it.Open? && Sound(it) && NonEmptyStack(rendered)
    ensures |ItemsOf(EventOf(TokenOf(it, Top(rendered))), rendered, wc)| == 1
    ensures ItemsOf(EventOf(TokenOf(it, Top(rendered))), rendered, wc) == [SortItem(it)]
            <==> Unmasked(it, Top(rendered))
  {
    ReadScope(it, rendered);
    OpenReadBack(it, Top(rendered));
    var e := EventOf(TokenOf(it, Top(rendered)));
    assert ItemsOf(e, rendered, wc) == ItemsOf(e, rendered, true);
    assert ItemsOf(e, rendered, wc)[0] == SortItem(it) <==> Unmasked(it, Top(rendered));
  }

  lemma {:induction false} StepReadBack(it: Item, rendered: seq<Scope>, wc: bool)
    requires Sound(it) && NonEmptyStack(rendered) && (it.Remark? ==> wc)
    ensures ScopesAfter(EventOf(TokenOf(it, Top(rendered))), rendered) == RenderedAfter(it, rendered)
    ensures |ItemsOf(EventOf(TokenOf(it, Top(rendered))), rendered, wc)| == 1
    ensures ItemsOf(EventOf(TokenOf(it, Top(rendered))), rendered, wc) == [SortItem(it)]
            <==> Unmasked(it, Top(rendered))
    ensures NonEmptyStack(RenderedAfter(it, rendered))
  {
    match it
    case Open(_, _, _, _) =>
      ReadScope(it, rendered);
      StepReadBackOpen(it, rendered, wc);
    case Close(prefix, local) => SplitJoin(prefix, local);
    case _ =>
  }

  /** Namespace preservation: resolving the output against nothing but the declarations
      in it gives the items of the input, attributes sorted, exactly when no used prefix
      is masked. */
  lemma {:induction false} MeaningPreserved(items: seq<Item>, rendered: seq<Scope>, wc: bool)
    requires forall it :: it in items ==> Sound(it) && (it.Remark? ==> wc)
    requires NonEmptyStack(rendered)
    ensures Resolve(EventsOf(Emit(items, rendered)), rendered, wc) == SortItems(items)
            <==> NothingMasked(items, rendered)
  {
    if items != [] {
      var it := items[0];
      var rendered' := RenderedAfter(it, rendered);
      StepReadBack(it, rendered, wc);
      MeaningPreserved(items[1..], rendered', wc);
      var ts := Emit(items, rendered);
      assert ts[1..] == Emit(items[1..], rendered');
      assert EventsOf(ts)[1..] == EventsOf(ts[1..]);
      var here := ItemsOf(EventOf(ts[0]), rendered, wc);
      var rest := Resolve(EventsOf(ts[1..]), rendered', wc);
      assert Resolve(EventsOf(ts), rendered, wc) == here + rest;
      assert here + rest == SortItems(items) <==> here == [SortItem(it)] && rest == SortItems(items[1..]) by {
        assert (here + rest)[..1] == here && (here + rest)[1..] == rest;
        assert SortItems(items)[..1] == [SortItem(it)] && SortItems(items)[1..] == SortItems(items[1..]);
      }
    }
  }

  /** Namespaces in XML 1.0 forbids binding a prefix to the empty URI. */
  ghost predicate BindsNoEmptyUri(attrs: seq<Attr>) {
    forall a :: a in attrs && IsDecl(a.key) && DeclPrefix(a.key) != "" ==> a.value != ""
  }

  ghost predicate WellFormed(evs: seq<Event>) {
    forall e :: e in evs ==> PlainEvent(e) && ((e.Start? || e.Empty?) ==> BindsNoEmptyUri(e.attrs))
  }

  /** A scope that knows every rendered prefix and binds none to the empty URI. */
  ghost predicate Covers(scope: Scope, rendered: Scope) {
    rendered.Keys <= scope.Keys && forall p :: p in scope && p != "" ==> scope[p] != ""
  }

  ghost predicate CoversStack(scopes: seq<Scope>, rendered: seq<Scope>) {
    |scopes| == |rendered| && forall i :: 0 <= i < |scopes| ==> Covers(scopes[i], rendered[i])
  }

  lemma {:induction false} ExtendCovers(scope: Scope, attrs: seq<Attr>)
    requires BindsNoEmptyUri(attrs) && Covers(scope, map[])
    ensures Covers(Extend(scope, attrs), map[]) && scope.Keys <= Extend(scope, attrs).Keys
  {
    if attrs != [] {
      assert attrs[|attrs| - 1] in attrs;
      ExtendCovers(scope, attrs[..|attrs| - 1]);
    }
  }

  lemma {:induction false} OpenCovers(name: string, attrs: seq<Attr>, scope: Scope, rendered: Scope)
    requires Covers(scope, rendered) && BindsNoEmptyUri(attrs)
    requires forall a :: a in attrs ==> a.key != ":xmlns"
    ensures var scope' := Extend(scope, attrs);
            var it := OpenItem(name, attrs, scope');
            Unmasked(it, rendered) && Covers(scope', rendered + Missing(Used(it), rendered))
  {
    ExtendCovers(scope, attrs);
    OpenItemSound(name, attrs, Extend(scope, attrs));
  }

  function RenderedThrough(items: seq<Item>, rendered: seq<Scope>): seq<Scope> {
    if items == [] then rendered else RenderedThrough(items[1..], RenderedAfter(items[0], rendered))
  }

  lemma {:induction false} NothingMaskedConcat(a: seq<Item>, b: seq<Item>, rendered: seq<Scope>)
    ensures NothingMasked(a + b, rendered)
            <==> NothingMasked(a, rendered) && NothingMasked(b, RenderedThrough(a, rendered))
  {
    if a == [] {
      assert a + b == b;
    } else {
      assert (a + b)[1..] == a[1..] + b;
      NothingMaskedConcat(a[1..], b, RenderedAfter(a[0], rendered));
    }
  }

  lemma {:induction false} EventUnmasked(e: Event, scopes: seq<Scope>, rendered: seq<Scope>, wc: bool)
    requires PlainEvent(e) && ((e.Start? || e.Empty?) ==> BindsNoEmptyUri(e.attrs))
    requires CoversStack(scopes, rendered)
    ensures NothingMasked(ItemsOf(e, scopes, wc), rendered)
    ensures CoversStack(ScopesAfter(e, scopes), RenderedThrough(ItemsOf(e, scopes, wc), rendered))
  {
    var here := ItemsOf(e, scopes, wc);
    if e.Start? || e.Empty? {
      OpenCovers(e.name, e.attrs, Top(scopes), Top(rendered));
      var inner := RenderedAfter(here[0], rendered);
      assert Pop(inner) == rendered;
      if e.Empty? {
        assert here[1..] == [CloseItem(e.name)];
        assert here[1..][1..] == [];
        assert RenderedThrough(here[1..], inner) == rendered;
      } else {
        assert here[1..] == [];
      }
    } else if here != [] {
      assert here[1..] == [];
    }
  }

  /** Where no prefix is bound to the empty URI, nothing is ever masked. */
  lemma {:induction false} WellFormedUnmasked(evs: seq<Event>, scopes: seq<Scope>, rendered: seq<Scope>, wc: bool)
    requires WellFormed(evs) && CoversStack(scopes, rendered)
    ensures NothingMasked(Resolve(evs, scopes, wc), rendered)
  {
    if evs != [] {
      var here := ItemsOf(evs[0], scopes, wc);
      EventUnmasked(evs[0], scopes, rendered, wc);
      WellFormedUnmasked(evs[1..], ScopesAfter(evs[0], scopes), RenderedThrough(here, rendered), wc);
      NothingMaskedConcat(here, Resolve(evs[1..], ScopesAfter(evs[0], scopes), wc), rendered);
    }
  }

  /** The empty stacks `canonicalize` starts from. */
  const BARE: seq<Scope> := [map[]]

  ghost function Tokens(evs: seq<Event>, wc: bool): seq<Token> {
    Emit(Resolve(evs, BARE, wc), BARE)
  }

  /** Namespace preservation for documents: the output, read on its own, has the items of
      the input. */
  lemma {:induction false} CanonicalMeaning(evs: seq<Event>, wc: bool)
    requires WellFormed(evs)
    ensures Resolve(EventsOf(Tokens(evs, wc)), BARE, wc) == SortItems(Resolve(evs, BARE, wc))
  {
    ResolvedSound(evs, BARE, wc);
    WellFormedUnmasked(evs, BARE, BARE, wc);
    MeaningPreserved(Resolve(evs, BARE, wc), BARE, wc);
  }

  // -------------------------------------------------------------- idempotence

  lemma {:induction false} BindingsValue(it: Item, b: Scope, p: string)
    requires it.Open? && Agrees(it, b) && p in Used(it)
    ensures p in b && Used(it)[p] == b[p]
    decreases |it.attrs|
  {
    BindingsDomain(it.prefix, it.uri, it.attrs, p);
    if it.attrs != [] {
      var n := |it.attrs| - 1;
      var init := it.(attrs := it.attrs[..n]);
      if it.attrs[n].prefix != p { BindingsValue(init, b, p); }
    }
  }

  lemma {:induction false} SortedBindings(it: Item)
    requires it.Open? && Sound(it)
    ensures Used(SortItem(it)) == Used(it)
  {
    var st := SortItem(it);
    SortedAttrs(it.attrs);
    assert Agrees(st, Used(it)) by {
      forall i | 0 <= i < |st.attrs|
        ensures if st.attrs[i].prefix == "" then st.attrs[i].uri == ""
                else st.attrs[i].prefix in Used(it) && Used(it)[st.attrs[i].prefix] == st.attrs[i].uri
      {
        assert st.attrs[i] in it.attrs;
      }
    }
    forall p ensures p in Used(st) <==> p in Used(it) {
      BindingsDomain(st.prefix, st.uri, st.attrs, p);
      BindingsDomain(it.prefix, it.uri, it.attrs, p);
      if Uses(it.prefix, it.attrs, p) && p != it.prefix {
        var i :| 0 <= i < |it.attrs| && it.attrs[i].prefix == p;
        assert it.attrs[i] in st.attrs;
      }
      if Uses(st.prefix, st.attrs, p) && p != st.prefix {
        var i :| 0 <= i < |st.attrs| && st.attrs[i].prefix == p;
        assert st.attrs[i] in it.attrs;
      }
    }
    forall p | p in Used(st) ensures Used(st)[p] == Used(it)[p] { BindingsValue(st, Used(it), p); }
  }

  /** Sorting the attributes beforehand changes nothing in the output. */
  lemma {:induction false} EmitSorted(items: seq<Item>, rendered: seq<Scope>)
    requires forall it :: it in items ==> Sound(it)
    ensures Emit(SortItems(items), rendered) == Emit(items, rendered)
  {
    if items != [] {
      var it := items[0];
      if it.Open? {
        SortedBindings(it);
        AttrOrder();
        SortSorts(AttrLe, it.attrs);
        SortOfSorted(AttrLe, Sort(AttrLe, it.attrs));
      }
      assert SortItems(items)[1..] == SortItems(items[1..]);
      EmitSorted(items[1..], RenderedAfter(it, rendered));
    }
  }

  /** Canonicalising canonical output changes nothing. */
  lemma {:induction false} Idempotent(evs: seq<Event>, wc: bool)
    requires WellFormed(evs)
    ensures Tokens(EventsOf(Tokens(evs, wc)), wc) == Tokens(evs, wc)
    ensures Canonical(EventsOf(Tokens(evs, wc)), wc) == Canonical(evs, wc)
  {
    CanonicalMeaning(evs, wc);
    ResolvedSound(evs, BARE, wc);
    EmitSorted(Resolve(evs, BARE, wc), BARE);
  }

  // --------------------------------------------------------------- minimality

  /** Every start-tag declares only prefixes that it uses and that the declarations above
      it do not already bind the same way; declarations and attributes are in order. */
  ghost predicate Minimal(ts: seq<Token>, scopes: seq<Scope>) {
    ts == []
    || ((ts[0].OpenTag? ==>
          && Sorted(BindingLe, ts[0].decls)
          && Sorted(AttrLe, ts[0].attrs)
          && forall d :: d in ts[0].decls ==>
               && d.uri != ""
               && Uses(ts[0].prefix, ts[0].attrs, d.prefix)
               && !(d.prefix in Top(scopes) && Top(scopes)[d.prefix] == d.uri))
        && Minimal(ts[1..], ScopesAfter(EventOf(ts[0]), scopes)))
  }

  lemma {:induction false} TagMinimal(it: Item, rendered: Scope, d: Binding)
    requires it.Open? && Sound(it) && d in TokenOf(it, rendered).decls
    ensures d.uri != "" && Uses(it.prefix, Sort(AttrLe, it.attrs), d.prefix)
    ensures !(d.prefix in rendered && rendered[d.prefix] == d.uri)
  {
    assert d.prefix in Missing(Used(it), rendered);
    BindingsDomain(it.prefix, it.uri, it.attrs, d.prefix);
    SortedAttrs(it.attrs);
    if d.prefix != it.prefix {
      var i :| 0 <= i < |it.attrs| && it.attrs[i].prefix == d.prefix;
      assert it.attrs[i] in Sort(AttrLe, it.attrs);
    }
  }

  lemma {:induction false} EmitMinimal(items: seq<Item>, rendered: seq<Scope>)
    requires forall it :: it in items ==> Sound(it)
    requires NonEmptyStack(rendered)
    ensures Minimal(Emit(items, rendered), rendered)
  {
    if items != [] {
      var it := items[0];
      StepReadBack(it, rendered, true);
      EmitMinimal(items[1..], RenderedAfter(it, rendered));
      var ts := Emit(items, rendered);
      assert ts[1..] == Emit(items[1..], RenderedAfter(it, rendered));
      if it.Open? {
        assert Sorted(AttrLe, ts[0].attrs) by { AttrOrder(); SortSorts(AttrLe, it.attrs); }
        forall d | d in ts[0].decls
          ensures d.uri != "" && Uses(ts[0].prefix, ts[0].attrs, d.prefix)
          ensures !(d.prefix in Top(rendered) && Top(rendered)[d.prefix] == d.uri)
        {
          TagMinimal(it, Top(rendered), d);
        }
      }
    }
  }

  // ------------------------------------------------------------------- document order

  /** By namespace URI, then by local name, each by first difference. */
  ghost predicate AttrsInOrder(attrs: seq<AttrItem>) {
    forall i, j :: 0 <= i < j < |attrs| ==>
      if attrs[i].uri == attrs[j].uri then Precedes(attrs[i].local, attrs[j].local)
      else Precedes(attrs[i].uri, attrs[j].uri)
  }

  ghost predicate DeclsInOrder(ds: seq<Binding>) {
    forall i, j :: 0 <= i < j < |ds| ==> Precedes(ds[i].prefix, ds[j].prefix)
  }

  /** In every open tag, declarations are ordered by prefix, attributes by namespace URI and
      local name. */
  ghost predicate TagsInOrder(ts: seq<Token>) {
    forall t :: t in ts && t.OpenTag? ==> DeclsInOrder(t.decls) && AttrsInOrder(t.attrs)
  }

  lemma {:induction false} AttrsSorted(attrs: seq<AttrItem>)
    ensures AttrsInOrder(Sort(AttrLe, attrs))
  {
    var s := Sort(AttrLe, attrs);
    AttrOrder();
    SortSorts(AttrLe, attrs);
    forall i, j | 0 <= i < j < |s|
      ensures if s[i].uri == s[j].uri then Precedes(s[i].local, s[j].local) else Precedes(s[i].uri, s[j].uri)
    {
      assert AttrLe(s[i], s[j]);
      StrLeIs(s[i].local, s[j].local);
      StrLeIs(s[i].uri, s[j].uri);
    }
  }

  lemma {:induction false} DeclsSorted(m: Scope)
    ensures DeclsInOrder(InOrder(m))
  {
    var ds := InOrder(m);
    forall i, j | 0 <= i < j < |ds| ensures Precedes(ds[i].prefix, ds[j].prefix) {
      assert BindingLe(ds[i], ds[j]);
      StrLeIs(ds[i].prefix, ds[j].prefix);
    }
  }

  lemma {:induction false} EmitInOrder(items: seq<Item>, rendered: seq<Scope>)
    ensures TagsInOrder(Emit(items, rendered))
  {
    if items != [] {
      var it := items[0];
      EmitInOrder(items[1..], RenderedAfter(it, rendered));
      if it.Open? {
        AttrsSorted(it.attrs);
        DeclsSorted(Missing(Used(it), Top(rendered)));
      }
    }
  }

  // -------------------------------------------------- masked and default names

  /** A prefix bound to the empty URI below an element that rendered it: the output
      resolves it to the outer URI. */
  lemma {:induction false} MaskedExample()
    ensures var evs := [Start("p:a", [Attr("xmlns:p", "u")]), Empty("p:b", [Attr("xmlns:p", "")])];
            Resolve(EventsOf(Tokens(evs, false)), BARE, false) != SortItems(Resolve(evs, BARE, false))
  {
    MaskedItems();
    MaskedChanges("p", "a", "b", "u", [Close("p", "b")]);
  }

  lemma {:induction false} MaskedChanges(p: string, a: string, b: string, uri: string, rest: seq<Item>)
    requires p != "" && uri != "" && ':' !in a && ':' !in b && forall it :: it in rest ==> it.Close? && Sound(it)
    ensures var items := [Open(p, a, uri, []), Open(p, b, "", [])] + rest;
            Resolve(EventsOf(Emit(items, BARE)), BARE, false) != SortItems(items)
  {
    MaskedSecond(p, a, b, uri, rest);
    MeaningPreserved([Open(p, a, uri, []), Open(p, b, "", [])] + rest, BARE, false);
  }

  /** An element whose prefix is bound above it and not by itself is masked. */
  lemma {:induction false} MaskedSecond(p: string, a: string, b: string, uri: string, rest: seq<Item>)
    requires p != "" && uri != ""
    ensures !NothingMasked([Open(p, a, uri, []), Open(p, b, "", [])] + rest, BARE)
  {
    var x, y := Open(p, a, uri, []), Open(p, b, "", []);
    var rendered := RenderedAfter(x, BARE);
    assert Missing(Used(x), map[]) == map[p := uri] && Top(rendered) == map[p := uri];
    assert !Unmasked(y, Top(rendered)) by { assert p in Used(y) && Used(y)[p] == ""; }
    var items := [x, y] + rest;
    assert items[1..][0] == y && items[0] == x;
    assert !NothingMasked(items[1..], rendered);
  }

  /** A name with prefix `p` and one declaration of that prefix. */
  lemma {:induction false} OneDeclaration(local: string, uri: string, scope: Scope)
    requires ':' !in local
    ensures var attrs := [Attr("xmlns:p", uri)];
            && Extend(scope, attrs) == scope["p" := uri]
            && OpenItem("p:" + local, attrs, scope["p" := uri]) == Open("p", local, uri, [])
            && CloseItem("p:" + local) == Close("p", local)
  {
    var attrs := [Attr("xmlns:p", uri)];
    assert "xmlns:p"[..6] == "xmlns:" && "xmlns:p"[6..] == "p";
    assert attrs[..0] == [] && ResolveAttrs(scope["p" := uri], attrs) == [];
    assert "p:" + local == Join("p", local);
    SplitJoin("p", local);
  }

  lemma {:induction false} MaskedItems()
    ensures var evs := [Start("p:a", [Attr("xmlns:p", "u")]), Empty("p:b", [Attr("xmlns:p", "")])];
            Resolve(evs, BARE, false) == [Open("p", "a", "u", []), Open("p", "b", "", [])] + [Close("p", "b")]
  {
    var s, e := Start("p:a", [Attr("xmlns:p", "u")]), Empty("p:b", [Attr("xmlns:p", "")]);
    var outer := map["p" := "u"];
    assert "p:a" == "p:" + "a" && "p:b" == "p:" + "b";
    OneDeclaration("a", "u", map[]);
    OneDeclaration("b", "", outer);
    assert outer["p" := ""] == map["p" := ""];
    var scopes := ScopesAfter(s, BARE);
    assert Top(scopes) == outer;
    assert [s, e][1..] == [e] && [e][1..] == [];
    assert Resolve([e], scopes, false) == ItemsOf(e, scopes, false) + [];
    assert ItemsOf(s, BARE, false) == [Open("p", "a", "u", [])];
  }

  const XML_URI := "http://www.w3.org/XML/1998/namespace"

  /** The namespace of a prefixed or unprefixed element name; `xml` is bound by definition. */
  function NamespaceOf(scope: Scope, prefix: string): string {
    if prefix == "xml" then XML_URI else Lookup(scope, prefix)
  }

  function EventNamespaces(e: Event, scopes: seq<Scope>): seq<string> {
    if e.Start? || e.Empty?
    then [NamespaceOf(Extend(Top(scopes), e.attrs), SplitQName(e.name).prefix)] else []
  }

  /** The namespace of every element, default namespace included. */
  function ElementNamespaces(evs: seq<Event>, scopes: seq<Scope>): seq<string> {
    if evs == [] then []
    else EventNamespaces(evs[0], scopes) + ElementNamespaces(evs[1..], ScopesAfter(evs[0], scopes))
  }

  ghost predicate NotInDefault(e: Event, scopes: seq<Scope>) {
    (e.Start? || e.Empty?) && SplitQName(e.name).prefix == "" ==>
      Lookup(Extend(Top(scopes), e.attrs), "") == ""
  }

  /** No unprefixed element lies in a default namespace. */
  ghost predicate DefaultFree(evs: seq<Event>, scopes: seq<Scope>) {
    evs == [] || (NotInDefault(evs[0], scopes) && DefaultFree(evs[1..], ScopesAfter(evs[0], scopes)))
  }

  /** What a resolved URI stands for, `xml` included. */
  function Meant(prefix: string, uri: string): string {
    if prefix == "xml" then XML_URI else uri
  }

  function ItemUri(it: Item): seq<string> {
    if it.Open? then [Meant(it.prefix, it.uri)] else []
  }

  function ItemUris(items: seq<Item>): seq<string> {
    if items == [] then [] else ItemUri(items[0]) + ItemUris(items[1..])
  }

  lemma {:induction false} ItemUrisConcat(a: seq<Item>, b: seq<Item>)
    ensures ItemUris(a + b) == ItemUris(a) + ItemUris(b)
  {
    if a == [] {
      assert a + b == b;
    } else {
      assert (a + b)[1..] == a[1..] + b;
      ItemUrisConcat(a[1..], b);
      Assoc(ItemUri(a[0]), ItemUris(a[1..]), ItemUris(b));
    }
  }

  lemma {:induction false} ItemUrisSorted(items: seq<Item>)
    ensures ItemUris(SortItems(items)) == ItemUris(items)
  {
    if items != [] {
      assert SortItems(items)[1..] == SortItems(items[1..]);
      ItemUrisSorted(items[1..]);
    }
  }

  lemma {:induction false} EventUris(e: Event, scopes: seq<Scope>, wc: bool)
    ensures |ItemUris(ItemsOf(e, scopes, wc))| == |EventNamespaces(e, scopes)|
    ensures EventNamespaces(e, scopes) == ItemUris(ItemsOf(e, scopes, wc)) <==> NotInDefault(e, scopes)
  {
    var here := ItemsOf(e, scopes, wc);
    if e.Start? || e.Empty? {
      var close := if e.Empty? then [CloseItem(e.name)] else [];
      assert here == [here[0]] + close;
      ItemUrisConcat([here[0]], close);
      assert [here[0]][1..] == [];
      assert ItemUris([here[0]]) == ItemUri(here[0]);
      assert ItemUris(close) == [] by {
        if close != [] { assert close[1..] == []; }
      }
      assert ItemUris(here) == ItemUri(here[0]);
      assert EventNamespaces(e, scopes)[0] == ItemUri(here[0])[0] <==> NotInDefault(e, scopes);
    } else if here != [] {
      assert here[1..] == [];
    }
  }

  lemma {:induction false} SplitEqual(a: seq<string>, b: seq<string>, c: seq<string>, d: seq<string>)
    requires |a| == |c|
    ensures a + b == c + d <==> a == c && b == d
  {
    if a + b == c + d {
      assert a == (a + b)[..|a|] && b == (a + b)[|a|..];
      assert c == (c + d)[..|c|] && d == (c + d)[|c|..];
    }
  }

  lemma {:induction false} NamespacesAreUris(evs: seq<Event>, scopes: seq<Scope>, wc: bool)
    ensures ElementNamespaces(evs, scopes) == ItemUris(Resolve(evs, scopes, wc))
            <==> DefaultFree(evs, scopes)
  {
    if evs != [] {
      var e, scopes' := evs[0], ScopesAfter(evs[0], scopes);
      var here, rest := ItemsOf(e, scopes, wc), Resolve(evs[1..], scopes', wc);
      NamespacesAreUris(evs[1..], scopes', wc);
      ItemUrisConcat(here, rest);
      EventUris(e, scopes, wc);
      SplitEqual(EventNamespaces(e, scopes), ElementNamespaces(evs[1..], scopes'), ItemUris(here), ItemUris(rest));
    }
  }

  lemma {:induction false} OutputDefaultFree(items: seq<Item>, rendered: seq<Scope>)
    requires forall it :: it in items ==> Sound(it)
    requires NonEmptyStack(rendered) && forall i :: 0 <= i < |rendered| ==> "" !in rendered[i]
    ensures DefaultFree(EventsOf(Emit(items, rendered)), rendered)
  {
    if items != [] {
      var it := items[0];
      StepReadBack(it, rendered, true);
      var ts := Emit(items, rendered);
      assert ts[1..] == Emit(items[1..], RenderedAfter(it, rendered));
      assert EventsOf(ts)[1..] == EventsOf(ts[1..]);
      StepDefaultFree(it, rendered);
      OutputDefaultFree(items[1..], RenderedAfter(it, rendered));
    }
  }

  /** No step renders a default namespace. */
  lemma {:induction false} StepDefaultFree(it: Item, rendered: seq<Scope>)
    requires Sound(it) && forall i :: 0 <= i < |rendered| ==> "" !in rendered[i]
    ensures NotInDefault(EventOf(TokenOf(it, Top(rendered))), rendered)
    ensures forall i :: 0 <= i < |RenderedAfter(it, rendered)| ==> "" !in RenderedAfter(it, rendered)[i]
  {
    if it.Open? {
      var e := EventOf(TokenOf(it, Top(rendered)));
      BindingsDomain(it.prefix, it.uri, it.attrs, "");
      ReadScope(it, rendered);
      assert ScopesAfter(e, rendered)[|rendered|] == Extend(Top(rendered), e.attrs);
    }
  }

  /** Full element namespaces survive exactly when no unprefixed element lies in a default
      namespace: `xmlns="..."` is never emitted. */
  lemma {:induction false} DefaultNamespaceExact(evs: seq<Event>, wc: bool)
    requires WellFormed(evs)
    ensures ElementNamespaces(EventsOf(Tokens(evs, wc)), BARE) == ElementNamespaces(evs, BARE)
            <==> DefaultFree(evs, BARE)
  {
    var items := Resolve(evs, BARE, wc);
    ResolvedSound(evs, BARE, wc);
    CanonicalMeaning(evs, wc);
    OutputDefaultFree(items, BARE);
    NamespacesAreUris(EventsOf(Tokens(evs, wc)), BARE, wc);
    ItemUrisSorted(items);
    NamespacesAreUris(evs, BARE, wc);
  }

  /** `<a xmlns="u"/>` comes out without its namespace. */
  lemma {:induction false} DefaultNamespaceLost(wc: bool)
    ensures var evs := [Empty("a", [Attr("xmlns", "u")])];
            ElementNamespaces(EventsOf(Tokens(evs, wc)), BARE) != ElementNamespaces(evs, BARE)
  {
    var attrs := [Attr("xmlns", "u")];
    var evs := [Empty("a", attrs)];
    assert "a" == Join("", "a");
    SplitJoin("", "a");
    assert attrs[..0] == [] && Extend(map[], attrs) == map["" := "u"];
    assert !NotInDefault(evs[0], BARE);
    DefaultNamespaceExact(evs, wc);
  }
}
