/** Canonicalising an element that was cut out of its document, as signature verification does:
    declarations outside the cut are lost. */
module C14nFragments {
  import opened Basics
  import opened XmlModel
  import opened C14nSpec
  import opened C14nTheorems
  import opened C14nVariants
  import opened C14nDocuments
  import Spans

  // --------------------------------------------------------- from bytes to events

  /** How the parser turns a value or a text as written into the one meant. */
  type Decoding = string -> string

  function DecodedAttrs(attrs: seq<Attr>, decode: Decoding): seq<Attr> {
    seq(|attrs|, i requires 0 <= i < |attrs| => Attr(attrs[i].key, decode(attrs[i].value)))
  }

  function Decoded(e: Event, decode: Decoding): Event {
    match e
    case Start(name, attrs) => Start(name, DecodedAttrs(attrs, decode))
    case Empty(name, attrs) => Empty(name, DecodedAttrs(attrs, decode))
    case Text(text) => Text(decode(text))
    case _ => e
  }

  function EventsIn(ps: seq<Spans.Piece>, decode: Decoding): seq<Event> {
    seq(|ps|, i requires 0 <= i < |ps| => Decoded(ps[i].ev, decode))
  }

  lemma {:induction false} EventsInConcat(a: seq<Spans.Piece>, b: seq<Spans.Piece>, decode: Decoding)
    ensures EventsIn(a + b, decode) == EventsIn(a, decode) + EventsIn(b, decode)
  {}

  // ------------------------------------------------------------ resolving a forest

  /** The items of a well-nested stream that stands in `scope`. */
  function ItemsIn(f: Spans.Forest, scope: Scope, decode: Decoding, wc: bool): seq<Item>
    requires Spans.WellNested(f)
  {
    match f
    case Nil => []
    case Leaf(p, next) => ItemsOf(Decoded(p.ev, decode), [scope], wc) + ItemsIn(next, scope, decode, wc)
    case Elem(start, kids, end, next) =>
      var attrs := DecodedAttrs(start.ev.attrs, decode);
      var inner := Extend(scope, attrs);
      [OpenItem(start.ev.name, attrs, inner)]
      + (ItemsIn(kids, inner, decode, wc) + ([CloseItem(start.ev.name)] + ItemsIn(next, scope, decode, wc)))
  }

  lemma {:induction false} ResolveHead(e: Event, rest: seq<Event>, scopes: seq<Scope>, wc: bool)
    ensures Resolve([e] + rest, scopes, wc) == ItemsOf(e, scopes, wc) + Resolve(rest, ScopesAfter(e, scopes), wc)
  {
    assert ([e] + rest)[1..] == rest;
  }

  lemma {:induction false} LeafScope(e: Event, scopes: seq<Scope>, wc: bool)
    requires !e.Start? && !e.End?
    ensures ItemsOf(e, scopes, wc) == ItemsOf(e, [Top(scopes)], wc) && ScopesAfter(e, scopes) == scopes
  {}

  /** A well-nested stream resolves by the scope it stands in, whatever follows it. */
  lemma {:induction false} ResolveForest(f: Spans.Forest, rest: seq<Event>, scopes: seq<Scope>, decode: Decoding, wc: bool)
    requires Spans.WellNested(f)
    ensures Resolve(EventsIn(Spans.Flatten(f), decode) + rest, scopes, wc)
            == ItemsIn(f, Top(scopes), decode, wc) + Resolve(rest, scopes, wc)
    decreases f, 1
  {
    match f
    case Nil =>
      assert EventsIn([], decode) + rest == rest;
    case Leaf(p, next) =>
      var e, tail := Decoded(p.ev, decode), EventsIn(Spans.Flatten(next), decode) + rest;
      EventsInConcat([p], Spans.Flatten(next), decode);
      assert EventsIn([p], decode) == [e];
      Assoc([e], EventsIn(Spans.Flatten(next), decode), rest);
      ResolveHead(e, tail, scopes, wc);
      LeafScope(e, scopes, wc);
      ResolveForest(next, rest, scopes, decode, wc);
      Assoc(ItemsOf(e, [Top(scopes)], wc), ItemsIn(next, Top(scopes), decode, wc), Resolve(rest, scopes, wc));
    case Elem(start, kids, end, next) =>
      ResolveElem(f, rest, scopes, decode, wc);
  }

  lemma {:induction false} ElemEvents(f: Spans.Forest, rest: seq<Event>, decode: Decoding)
    requires f.Elem? && Spans.WellNested(f)
    ensures var s := Start(f.start.ev.name, DecodedAttrs(f.start.ev.attrs, decode));
            EventsIn(Spans.Flatten(f), decode) + rest
            == [s] + (EventsIn(Spans.Flatten(f.kids), decode)
                      + ([End(f.start.ev.name)] + (EventsIn(Spans.Flatten(f.next), decode) + rest)))
  {
    var k, n := Spans.Flatten(f.kids), Spans.Flatten(f.next);
    Spans.WrapShape(f.start, k, f.end, n);
    EventsInConcat([f.start], k + ([f.end] + n), decode);
    EventsInConcat(k, [f.end] + n, decode);
    EventsInConcat([f.end], n, decode);
  }

  lemma {:induction false} ResolveElem(f: Spans.Forest, rest: seq<Event>, scopes: seq<Scope>, decode: Decoding, wc: bool)
    requires f.Elem? && Spans.WellNested(f)
    ensures Resolve(EventsIn(Spans.Flatten(f), decode) + rest, scopes, wc)
            == ItemsIn(f, Top(scopes), decode, wc) + Resolve(rest, scopes, wc)
    decreases f, 0
  {
    var name, attrs := f.start.ev.name, DecodedAttrs(f.start.ev.attrs, decode);
    var s, e := Start(name, attrs), End(name);
    var within := ScopesAfter(s, scopes);
    var after := EventsIn(Spans.Flatten(f.next), decode) + rest;
    ElemEvents(f, rest, decode);
    ResolveHead(s, EventsIn(Spans.Flatten(f.kids), decode) + ([e] + after), scopes, wc);
    ResolveForest(f.kids, [e] + after, within, decode, wc);
    ResolveHead(e, after, within, wc);
    assert Pop(within) == scopes;
    ResolveForest(f.next, rest, scopes, decode, wc);
    var i0, i1, i2, i3 := [OpenItem(name, attrs, Top(within))], ItemsIn(f.kids, Top(within), decode, wc),
                          [CloseItem(name)], ItemsIn(f.next, Top(scopes), decode, wc);
    var r := Resolve(rest, scopes, wc);
    FourAndRest(i0, i1, i2, i3, r);
  }

  lemma {:induction false} FourAndRest(a: seq<Item>, b: seq<Item>, c: seq<Item>, d: seq<Item>, r: seq<Item>)
    ensures a + (b + (c + (d + r))) == a + (b + (c + d)) + r
  {
    Assoc(c, d, r);
    Assoc(b, c + d, r);
    Assoc(a, b + (c + d), r);
  }

  // -------------------------------------------------------------- self-containment

  /** Every prefix the element visibly uses is bound inside the cut, or nowhere. */
  ghost predicate BoundInside(name: string, attrs: seq<Attr>, inner: Scope, outer: Scope) {
    var own := Extend(inner, attrs);
    forall p :: p in Used(OpenItem(name, attrs, own)) && p !in own ==> Lookup(outer, p) == ""
  }

  /** So for every element of the stream; `inner` holds what the cut has bound so far. */
  ghost predicate SelfContained(f: Spans.Forest, inner: Scope, outer: Scope, decode: Decoding)
    requires Spans.WellNested(f)
  {
    match f
    case Nil => true
    case Leaf(p, next) =>
      && (p.ev.Empty? ==> BoundInside(p.ev.name, DecodedAttrs(p.ev.attrs, decode), inner, outer))
      && SelfContained(next, inner, outer, decode)
    case Elem(start, kids, end, next) =>
      var attrs := DecodedAttrs(start.ev.attrs, decode);
      && BoundInside(start.ev.name, attrs, inner, outer)
      && SelfContained(kids, Extend(inner, attrs), outer, decode)
      && SelfContained(next, inner, outer, decode)
  }

  /** What each element uses, in document order. */
  function UsedBy(it: Item): seq<Scope> {
    if it.Open? then [Used(it)] else []
  }

  function UsedList(items: seq<Item>): seq<Scope> {
    if items == [] then [] else UsedBy(items[0]) + UsedList(items[1..])
  }

  lemma {:induction false} UsedListConcat(a: seq<Item>, b: seq<Item>)
    ensures UsedList(a + b) == UsedList(a) + UsedList(b)
  {
    if a == [] {
      assert a + b == b;
    } else {
      assert (a + b)[1..] == a[1..] + b;
      UsedListConcat(a[1..], b);
      Assoc(UsedBy(a[0]), UsedList(a[1..]), UsedList(b));
    }
  }

  lemma {:induction false} UsedListOne(it: Item)
    ensures UsedList([it]) == UsedBy(it)
  {
    assert [it][1..] == [];
  }

  /** Declarations override the outer scope just as they override nothing. */
  lemma {:induction false} ExtendOver(outer: Scope, inner: Scope, attrs: seq<Attr>)
    ensures Extend(outer + inner, attrs) == outer + Extend(inner, attrs)
  {
    if attrs != [] { ExtendOver(outer, inner, attrs[..|attrs| - 1]); }
  }

  /** Attributes resolve the same where their prefixes do. */
  lemma {:induction false} ResolveAttrsSame(a: Scope, b: Scope, attrs: seq<Attr>)
    requires forall x :: x in ResolveAttrs(b, attrs) ==> UriOf(a, x.prefix) == UriOf(b, x.prefix)
    ensures ResolveAttrs(a, attrs) == ResolveAttrs(b, attrs)
  {
    if attrs != [] {
      var n := |attrs| - 1;
      ResolveAttrsSame(a, b, attrs[..n]);
      if !IsDecl(attrs[n].key) { assert ResolveAttr(b, attrs[n]) in ResolveAttrs(b, attrs); }
    }
  }

  /** An element resolves the same in both scopes exactly when it uses nothing from outside. */
  lemma {:induction false} OpenSame(name: string, attrs: seq<Attr>, inner: Scope, outer: Scope)
    requires forall a :: a in attrs ==> a.key != ":xmlns"
    ensures var own := Extend(inner, attrs);
            var there, here := OpenItem(name, attrs, outer + own), OpenItem(name, attrs, own);
            && (BoundInside(name, attrs, inner, outer) ==> there == here)
            && (Used(there) == Used(here) ==> BoundInside(name, attrs, inner, outer))
  {
    var own := Extend(inner, attrs);
    var there, here := OpenItem(name, attrs, outer + own), OpenItem(name, attrs, own);
    OpenItemSound(name, attrs, own);
    OpenItemSound(name, attrs, outer + own);
    if BoundInside(name, attrs, inner, outer) {
      forall p | p in Used(here) ensures UriOf(outer + own, p) == UriOf(own, p) {}
      BindingsDomain(here.prefix, here.uri, here.attrs, here.prefix);
      forall x | x in here.attrs ensures UriOf(outer + own, x.prefix) == UriOf(own, x.prefix) {
        BindingsDomain(here.prefix, here.uri, here.attrs, x.prefix);
      }
      ResolveAttrsSame(outer + own, own, attrs);
    }
    if Used(there) == Used(here) {
      forall p | p in Used(here) && p !in own ensures Lookup(outer, p) == "" {
        assert Used(there)[p] == Lookup(outer + own, p) && Used(here)[p] == Lookup(own, p);
      }
    }
  }

  ghost predicate PlainForest(f: Spans.Forest, decode: Decoding) {
    forall e :: e in EventsIn(Spans.Flatten(f), decode) ==> PlainEvent(e)
  }

  lemma {:induction false} PlainParts(f: Spans.Forest, decode: Decoding)
    requires Spans.WellNested(f) && PlainForest(f, decode)
    ensures f.Leaf? ==> PlainEvent(Decoded(f.piece.ev, decode)) && PlainForest(f.next, decode)
    ensures f.Elem? ==>
              PlainEvent(Decoded(f.start.ev, decode)) && PlainForest(f.kids, decode) && PlainForest(f.next, decode)
  {
    match f
    case Nil =>
    case Leaf(p, next) =>
      EventsInConcat([p], Spans.Flatten(next), decode);
      assert EventsIn([p], decode)[0] == Decoded(p.ev, decode);
    case Elem(start, kids, end, next) =>
      ElemEvents(f, [], decode);
      var all := EventsIn(Spans.Flatten(f), decode);
      assert all + [] == all;
  }

  /** A stream resolves the same in both scopes exactly when it is self-contained; otherwise
      some element uses other bindings. */
  lemma {:induction false} ForestSame(f: Spans.Forest, inner: Scope, outer: Scope, decode: Decoding, wc: bool)
    requires Spans.WellNested(f) && PlainForest(f, decode)
    ensures var there, here := ItemsIn(f, outer + inner, decode, wc), ItemsIn(f, inner, decode, wc);
            && |UsedList(there)| == |UsedList(here)|
            && (SelfContained(f, inner, outer, decode) ==> there == here)
            && (UsedList(there) == UsedList(here) ==> SelfContained(f, inner, outer, decode))
    decreases f, 1
  {
    PlainParts(f, decode);
    match f
    case Nil =>
    case Leaf(p, next) =>
      LeafSame(p.ev, inner, outer, decode, wc);
      ForestSame(next, inner, outer, decode, wc);
      var a, b := ItemsOf(Decoded(p.ev, decode), [outer + inner], wc), ItemsOf(Decoded(p.ev, decode), [inner], wc);
      var c, d := ItemsIn(next, outer + inner, decode, wc), ItemsIn(next, inner, decode, wc);
      UsedListConcat(a, c);
      UsedListConcat(b, d);
      SplitScopes(UsedList(a), UsedList(c), UsedList(b), UsedList(d));
    case Elem(_, _, _, _) =>
      ElemSame(f, inner, outer, decode, wc);
  }

  lemma {:induction false} SplitScopes(a: seq<Scope>, c: seq<Scope>, b: seq<Scope>, d: seq<Scope>)
    requires |a| == |b|
    ensures a + c == b + d ==> a == b && c == d
  {
    if a + c == b + d {
      assert a == (a + c)[..|a|] && b == (b + d)[..|a|];
      assert c == (a + c)[|a|..] && d == (b + d)[|a|..];
    }
  }

  lemma {:induction false} LeafSame(e: Event, inner: Scope, outer: Scope, decode: Decoding, wc: bool)
    requires !e.Start? && !e.End? && PlainEvent(Decoded(e, decode))
    ensures var there, here := ItemsOf(Decoded(e, decode), [outer + inner], wc), ItemsOf(Decoded(e, decode), [inner], wc);
            var bound := e.Empty? ==> BoundInside(e.name, DecodedAttrs(e.attrs, decode), inner, outer);
            && |UsedList(there)| == |UsedList(here)|
            && (bound ==> there == here)
            && (UsedList(there) == UsedList(here) ==> bound)
  {
    if e.Empty? {
      var attrs := DecodedAttrs(e.attrs, decode);
      ExtendOver(outer, inner, attrs);
      OpenSame(e.name, attrs, inner, outer);
      EmptyUsed(e.name, attrs, Extend(inner, attrs));
      EmptyUsed(e.name, attrs, outer + Extend(inner, attrs));
    }
  }

  lemma {:induction false} EmptyUsed(name: string, attrs: seq<Attr>, scope: Scope)
    ensures UsedList([OpenItem(name, attrs, scope), CloseItem(name)]) == [Used(OpenItem(name, attrs, scope))]
  {
    var o, c := OpenItem(name, attrs, scope), CloseItem(name);
    assert [o, c] == [o] + [c];
    UsedListConcat([o], [c]);
    UsedListOne(o);
    UsedListOne(c);
  }

  /** What an element with content uses: its own, then its children's, then what follows. */
  lemma {:induction false} ElemUsed(f: Spans.Forest, scope: Scope, decode: Decoding, wc: bool)
    requires f.Elem? && Spans.WellNested(f)
    ensures var attrs := DecodedAttrs(f.start.ev.attrs, decode);
            var inner := Extend(scope, attrs);
            UsedList(ItemsIn(f, scope, decode, wc))
            == [Used(OpenItem(f.start.ev.name, attrs, inner))]
               + (UsedList(ItemsIn(f.kids, inner, decode, wc)) + UsedList(ItemsIn(f.next, scope, decode, wc)))
  {
    var name, attrs := f.start.ev.name, DecodedAttrs(f.start.ev.attrs, decode);
    var inner := Extend(scope, attrs);
    var o, c := OpenItem(name, attrs, inner), CloseItem(name);
    var kids, next := ItemsIn(f.kids, inner, decode, wc), ItemsIn(f.next, scope, decode, wc);
    UsedListConcat([o], kids + ([c] + next));
    UsedListConcat(kids, [c] + next);
    UsedListConcat([c], next);
    UsedListOne(o);
    UsedListOne(c);
    assert [] + UsedList(next) == UsedList(next);
  }

  lemma {:induction false} ElemSame(f: Spans.Forest, inner: Scope, outer: Scope, decode: Decoding, wc: bool)
    requires f.Elem? && Spans.WellNested(f) && PlainForest(f, decode)
    ensures var there, here := ItemsIn(f, outer + inner, decode, wc), ItemsIn(f, inner, decode, wc);
            && |UsedList(there)| == |UsedList(here)|
            && (SelfContained(f, inner, outer, decode) ==> there == here)
            && (UsedList(there) == UsedList(here) ==> SelfContained(f, inner, outer, decode))
    decreases f, 0
  {
    PlainParts(f, decode);
    var name, attrs := f.start.ev.name, DecodedAttrs(f.start.ev.attrs, decode);
    var own := Extend(inner, attrs);
    ExtendOver(outer, inner, attrs);
    OpenSame(name, attrs, inner, outer);
    ForestSame(f.kids, own, outer, decode, wc);
    ForestSame(f.next, inner, outer, decode, wc);
    ElemUsed(f, outer + inner, decode, wc);
    ElemUsed(f, inner, decode, wc);
    var u, v := [Used(OpenItem(name, attrs, outer + own))], [Used(OpenItem(name, attrs, own))];
    var k, l := UsedList(ItemsIn(f.kids, outer + own, decode, wc)), UsedList(ItemsIn(f.kids, own, decode, wc));
    var m, n := UsedList(ItemsIn(f.next, outer + inner, decode, wc)), UsedList(ItemsIn(f.next, inner, decode, wc));
    SplitScopes(u, k + m, v, l + n);
    SplitScopes(k, m, l, n);
  }

  // ------------------------------------------------------------- from bytes to uses

  lemma {:induction false} UsedListJoined(items: seq<Item>)
    ensures UsedList(JoinText(items)) == UsedList(items)
  {
    if items != [] {
      var rest := JoinText(items[1..]);
      UsedListJoined(items[1..]);
      assert ([items[0]] + rest)[1..] == rest;
      if items[0].Chars? && items[0].text != "" && rest != [] && rest[0].Chars? {
        var both := Chars(items[0].text + rest[0].text);
        assert ([both] + rest[1..])[1..] == rest[1..];
        assert [] + UsedList(rest[1..]) == UsedList(rest);
      }
    }
  }

  lemma {:induction false} UsedListSorted(items: seq<Item>)
    requires forall it :: it in items ==> Sound(it)
    ensures UsedList(SortItems(items)) == UsedList(items)
  {
    if items != [] {
      assert SortItems(items)[1..] == SortItems(items[1..]);
      UsedListSorted(items[1..]);
      if items[0].Open? { SortedBindings(items[0]); }
    }
  }

  lemma {:induction false} UsedListNormal(items: seq<Item>, wc: bool)
    requires Clean(items, wc)
    ensures UsedList(Normal(items)) == UsedList(items)
  {
    CleanAsMembers(items, wc);
    JoinTextSound(items, wc);
    UsedListJoined(items);
    UsedListSorted(JoinText(items));
  }

  /** Items that are written alike use alike. */
  lemma {:induction false} SameBytesSameUse(a: seq<Item>, b: seq<Item>, wc: bool)
    requires Clean(a, wc) && NothingMasked(a, BARE) && Clean(b, wc) && NothingMasked(b, BARE)
    requires Serialise(Emit(a, BARE)) == Serialise(Emit(b, BARE))
    ensures UsedList(a) == UsedList(b)
  {
    BytesCarryItems(a, wc);
    BytesCarryItems(b, wc);
    UsedListNormal(a, wc);
    UsedListNormal(b, wc);
  }

  lemma {:induction false} ScopesCover(evs: seq<Event>, scopes: seq<Scope>)
    requires WellFormed(evs) && forall i :: 0 <= i < |scopes| ==> Covers(scopes[i], map[])
    ensures forall i :: 0 <= i < |ScopesThrough(evs, scopes)| ==> Covers(ScopesThrough(evs, scopes)[i], map[])
  {
    if evs != [] {
      var e := evs[0];
      assert e in evs;
      if e.Start? { ExtendCovers(Top(scopes), e.attrs); }
      ScopesCover(evs[1..], ScopesAfter(e, scopes));
    }
  }

  // ------------------------------------------------------------------ theorems

  /** The exclusive canonical form, as a node set of its own, of what stands in these scopes. */
  ghost function CanonicalWithin(evs: seq<Event>, scopes: seq<Scope>, wc: bool): string {
    Serialise(Emit(Resolve(evs, scopes, wc), BARE))
  }

  lemma {:induction false} WithinForest(f: Spans.Forest, scopes: seq<Scope>, decode: Decoding, wc: bool)
    requires Spans.WellNested(f)
    ensures Resolve(EventsIn(Spans.Flatten(f), decode), scopes, wc) == ItemsIn(f, Top(scopes), decode, wc)
  {
    var evs := EventsIn(Spans.Flatten(f), decode);
    ResolveForest(f, [], scopes, decode, wc);
    assert evs + [] == evs;
    assert ItemsIn(f, Top(scopes), decode, wc) + [] == ItemsIn(f, Top(scopes), decode, wc);
  }

  /** Canonicalising a well-nested fragment on its own gives its canonical form in the document,
      behind any `pre`, exactly when every prefix visibly used in it that the document binds
      around it is bound inside it. */
  lemma {:induction false} FragmentExact(pre: seq<Event>, f: Spans.Forest, decode: Decoding, wc: bool)
    requires WellFormed(pre) && Spans.WellNested(f) && Parsed(EventsIn(Spans.Flatten(f), decode))
    ensures var evs, scopes := EventsIn(Spans.Flatten(f), decode), ScopesThrough(pre, BARE);
            Canonical(evs, wc) == CanonicalWithin(evs, scopes, wc)
            <==> SelfContained(f, map[], Top(scopes), decode)
  {
    var evs, scopes := EventsIn(Spans.Flatten(f), decode), ScopesThrough(pre, BARE);
    var outer := Top(scopes);
    ScopesCover(pre, BARE);
    WithinForest(f, BARE, decode, wc);
    WithinForest(f, scopes, decode, wc);
    WithinForest(f, [outer], decode, wc);
    assert outer + map[] == outer;
    assert PlainForest(f, decode);
    ForestSame(f, map[], outer, decode, wc);
    if Canonical(evs, wc) == CanonicalWithin(evs, scopes, wc) {
      ResolvedClean(evs, map[], wc);
      ResolvedClean(evs, outer, wc);
      SameBytesSameUse(Resolve(evs, [outer], wc), Resolve(evs, BARE, wc), wc);
    }
  }

  lemma {:induction false} EventsInSlice(ps: seq<Spans.Piece>, i: nat, j: nat, decode: Decoding)
    requires i <= j <= |ps|
    ensures EventsIn(ps[i..j], decode) == EventsIn(ps, decode)[i..j]
  {}

  /** For the element that a query finds in a document: canonicalising the bytes of its span
      equals canonicalising it where it stands, exactly when it is self-contained. */
  lemma {:induction false} LocatedExact(q: Spans.Query, f: Spans.Forest, decode: Decoding, wc: bool)
    requires Spans.WellNested(f) && Spans.First(q, f, 0).Some?
    requires Parsed(EventsIn(Spans.Flatten(f), decode))
    ensures var s, all, found := Spans.First(q, f, 0).value, EventsIn(Spans.Flatten(f), decode), Spans.FoundElement(q, f);
            && s.start <= s.end <= |all| && Spans.WellNested(found)
            && var scopes := ScopesThrough(all[..s.start], BARE);
               (Canonical(all[s.start..s.end], wc) == CanonicalWithin(all[s.start..s.end], scopes, wc)
                <==> SelfContained(found, map[], Top(scopes), decode))
  {
    var ps, s := Spans.Flatten(f), Spans.First(q, f, 0).value;
    var all, found := EventsIn(ps, decode), Spans.FoundElement(q, f);
    Spans.FoundIsPart(q, f);
    EventsInSlice(ps, s.start, s.end, decode);
    forall e | e in all[..s.start] || e in all[s.start..s.end] ensures e in all {}
    FragmentExact(all[..s.start], found, decode, wc);
  }

  /** What signature verification digests: the element a query finds, without its first
      `Signature`, canonicalised alone. That equals its canonical form in the document exactly
      when what is left is self-contained. */
  lemma {:induction false} DigestInputExact(q: Spans.Query, f: Spans.Forest, decode: Decoding, wc: bool)
    requires Spans.WellNested(f) && Spans.First(q, f, 0).Some?
    requires Parsed(EventsIn(Spans.Flatten(f), decode))
    ensures var all, start := EventsIn(Spans.Flatten(f), decode), Spans.First(q, f, 0).value.start;
            var signed := Spans.Remove(Spans.ByLocal("Signature"), Spans.FoundElement(q, f));
            && start <= |all| && Spans.WellNested(signed)
            && var evs, scopes := EventsIn(Spans.Flatten(signed), decode), ScopesThrough(all[..start], BARE);
               (Canonical(evs, wc) == CanonicalWithin(evs, scopes, wc)
                <==> SelfContained(signed, map[], Top(scopes), decode))
  {
    var all, s := EventsIn(Spans.Flatten(f), decode), Spans.First(q, f, 0).value;
    var found := Spans.FoundElement(q, f);
    Spans.FoundIsPart(q, f);
    EventsInSlice(Spans.Flatten(f), s.start, s.end, decode);
    var signed := Spans.Remove(Spans.ByLocal("Signature"), found);
    WithoutSignature(found, decode);
    forall e | e in all[..s.start] || e in all[s.start..s.end] ensures e in all {}
    forall e | e in EventsIn(Spans.Flatten(signed), decode) ensures e in all {}
    FragmentExact(all[..s.start], signed, decode, wc);
  }

  lemma {:induction false} WithoutSignature(f: Spans.Forest, decode: Decoding)
    requires Spans.WellNested(f)
    ensures var signed := Spans.Remove(Spans.ByLocal("Signature"), f);
            && Spans.WellNested(signed)
            && forall e :: e in EventsIn(Spans.Flatten(signed), decode) ==> e in EventsIn(Spans.Flatten(f), decode)
  {
    RemovedWithin(Spans.ByLocal("Signature"), f);
    EventsInFewer(Spans.Flatten(f), Spans.Flatten(Spans.Remove(Spans.ByLocal("Signature"), f)), decode);
  }

  lemma {:induction false} RemovedWithin(q: Spans.Query, f: Spans.Forest)
    requires Spans.WellNested(f)
    ensures Spans.WellNested(Spans.Remove(q, f))
    ensures forall p :: p in Spans.Flatten(Spans.Remove(q, f)) ==> p in Spans.Flatten(f)
  {
    if Spans.First(q, f, 0).Some? {
      Spans.RemoveCuts(q, f);
    } else {
      Spans.RemoveNone(q, f);
    }
  }

  lemma {:induction false} EventsInFewer(ps: seq<Spans.Piece>, fewer: seq<Spans.Piece>, decode: Decoding)
    requires forall p :: p in fewer ==> p in ps
    ensures forall e :: e in EventsIn(fewer, decode) ==> e in EventsIn(ps, decode)
  {
    forall e | e in EventsIn(fewer, decode) ensures e in EventsIn(ps, decode) {
      var i :| 0 <= i < |fewer| && EventsIn(fewer, decode)[i] == e;
      assert fewer[i] in ps;
      var j :| 0 <= j < |ps| && ps[j] == fewer[i];
      assert EventsIn(ps, decode)[j] == e;
    }
  }

  /** `<p:b/>` inside `<p:a xmlns:p="u">`: cut out, its prefix is no longer bound. */
  lemma {:induction false} CutLosesPrefix(raw: string, decode: Decoding, wc: bool)
    ensures var pre := [Start("p:a", [Attr("xmlns:p", "u")])];
            var f := Spans.Leaf(Spans.Piece(Empty("p:b", []), raw), Spans.Nil);
            var evs := EventsIn(Spans.Flatten(f), decode);
            Canonical(evs, wc) != CanonicalWithin(evs, ScopesThrough(pre, BARE), wc)
  {
    var pre := [Start("p:a", [Attr("xmlns:p", "u")])];
    var f := Spans.Leaf(Spans.Piece(Empty("p:b", []), raw), Spans.Nil);
    var evs := EventsIn(Spans.Flatten(f), decode);
    LeafEvents("p:b", raw, decode);
    PrefixDeclared();
    PrefixFromOutside();
    assert Parsed(evs);
    FragmentExact(pre, f, decode, wc);
  }

  lemma {:induction false} LeafEvents(name: string, raw: string, decode: Decoding)
    ensures DecodedAttrs([], decode) == []
    ensures EventsIn(Spans.Flatten(Spans.Leaf(Spans.Piece(Empty(name, []), raw), Spans.Nil)), decode) == [Empty(name, [])]
  {
    var f := Spans.Leaf(Spans.Piece(Empty(name, []), raw), Spans.Nil);
    assert DecodedAttrs([], decode) == [];
    assert Spans.Flatten(f) == [f.piece];
  }

  lemma {:induction false} PrefixDeclared()
    ensures var pre := [Start("p:a", [Attr("xmlns:p", "u")])];
            WellFormed(pre) && Top(ScopesThrough(pre, BARE)) == map["p" := "u"]
  {
    assert "p:a" == "p:" + "a";
    OneDeclaration("a", "u", map[]);
    ResolveOne(Start("p:a", [Attr("xmlns:p", "u")]), BARE, false);
  }

  lemma {:induction false} PrefixFromOutside()
    ensures NameOk("p:b") && !BoundInside("p:b", [], map[], map["p" := "u"])
  {
    assert "p:b" == Join("p", "b");
    SplitJoin("p", "b");
    assert Extend(map[], []) == map[];
    assert "p" in Used(OpenItem("p:b", [], map[]));
  }
}
