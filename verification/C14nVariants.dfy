/** The canonical form depends on the resolved items alone: spellings that resolve alike
    canonicalise identically. */
module C14nVariants {
  import opened Basics
  import opened XmlModel
  import opened Ordering
  import opened C14nSpec
  import opened C14nTheorems

  /** Joining one item to a list that is joined already. */
  function JoinOne(it: Item, rest: seq<Item>): seq<Item> {
    if !it.Chars? then [it] + rest
    else if it.text == "" then rest
    else if rest != [] && rest[0].Chars? then [Chars(it.text + rest[0].text)] + rest[1..]
    else [it] + rest
  }

  /** Adjacent text joined, empty text dropped. */
  function JoinText(items: seq<Item>): seq<Item> {
    if items == [] then [] else JoinOne(items[0], JoinText(items[1..]))
  }

  /** What the code keeps of a document: names as it resolves them, attributes in canonical
      order, maximal text. What this leaves out of the document is the subject of
      `C14nInfoset`. */
  function ResolvedItems(evs: seq<Event>, wc: bool): seq<Item> {
    SortItems(JoinText(Resolve(evs, BARE, wc)))
  }

  lemma {:induction false} EscapedTextConcat(a: string, b: string)
    ensures EscapedText(a + b) == EscapedText(a) + EscapedText(b)
  {
    if a == "" {
      assert a + b == b;
    } else {
      assert (a + b)[1..] == a[1..] + b;
      EscapedTextConcat(a[1..], b);
      Assoc(EscapeTextChar(a[0]), EscapedText(a[1..]), EscapedText(b));
    }
  }

  lemma {:induction false} EmitCons(it: Item, items: seq<Item>, rendered: seq<Scope>)
    ensures Serialise(Emit([it] + items, rendered))
            == Written(TokenOf(it, Top(rendered))) + Serialise(Emit(items, RenderedAfter(it, rendered)))
  {
    assert ([it] + items)[1..] == items;
    var t, ts := TokenOf(it, Top(rendered)), Emit(items, RenderedAfter(it, rendered));
    assert ([t] + ts)[1..] == ts;
  }

  /** Two text items in a row are written as one. */
  lemma {:induction false} TextRunsJoin(a: string, b: string, items: seq<Item>, rendered: seq<Scope>)
    ensures Serialise(Emit([Chars(a)] + ([Chars(b)] + items), rendered))
            == Serialise(Emit([Chars(a + b)] + items, rendered))
  {
    EmitCons(Chars(a), [Chars(b)] + items, rendered);
    EmitCons(Chars(b), items, rendered);
    EmitCons(Chars(a + b), items, rendered);
    EscapedTextConcat(a, b);
    Assoc(EscapedText(a), EscapedText(b), Serialise(Emit(items, rendered)));
  }

  /** An item is written the same before lists that are written the same. */
  lemma {:induction false} EmitBefore(it: Item, a: seq<Item>, b: seq<Item>, rendered: seq<Scope>)
    requires Serialise(Emit(a, RenderedAfter(it, rendered))) == Serialise(Emit(b, RenderedAfter(it, rendered)))
    ensures Serialise(Emit([it] + a, rendered)) == Serialise(Emit([it] + b, rendered))
  {
    EmitCons(it, a, rendered);
    EmitCons(it, b, rendered);
  }

  lemma {:induction false} JoinOneSerialised(it: Item, rest: seq<Item>, rendered: seq<Scope>)
    ensures Serialise(Emit(JoinOne(it, rest), rendered)) == Serialise(Emit([it] + rest, rendered))
  {
    if it.Chars? && it.text == "" {
      EmitCons(it, rest, rendered);
    } else if it.Chars? && rest != [] && rest[0].Chars? {
      assert rest == [rest[0]] + rest[1..];
      TextRunsJoin(it.text, rest[0].text, rest[1..], rendered);
    }
  }

  /** Splitting text differently changes no byte. */
  lemma {:induction false} JoinTextSerialised(items: seq<Item>, rendered: seq<Scope>)
    ensures Serialise(Emit(JoinText(items), rendered)) == Serialise(Emit(items, rendered))
  {
    if items != [] {
      var it, rest := items[0], JoinText(items[1..]);
      JoinTextSerialised(items[1..], RenderedAfter(it, rendered));
      EmitBefore(it, rest, items[1..], rendered);
      JoinOneSerialised(it, rest, rendered);
      assert items == [it] + items[1..];
    }
  }

  lemma {:induction false} JoinTextSound(items: seq<Item>, wc: bool)
    requires forall it :: it in items ==> Sound(it) && (it.Remark? ==> wc)
    ensures forall it :: it in JoinText(items) ==> Sound(it) && (it.Remark? ==> wc)
  {
    if items != [] { JoinTextSound(items[1..], wc); }
  }

  /** The canonical form is a function of the resolved items. */
  lemma {:induction false} CanonicalOfResolved(evs: seq<Event>, wc: bool)
    requires forall e :: e in evs ==> PlainEvent(e)
    ensures Canonical(evs, wc) == Serialise(Emit(ResolvedItems(evs, wc), BARE))
  {
    var items := Resolve(evs, BARE, wc);
    ResolvedSound(evs, BARE, wc);
    JoinTextSerialised(items, BARE);
    JoinTextSound(items, wc);
    EmitSorted(JoinText(items), BARE);
  }

  // ------------------------------------------------------- spelling variations

  function ScopesThrough(evs: seq<Event>, scopes: seq<Scope>): seq<Scope> {
    if evs == [] then scopes else ScopesThrough(evs[1..], ScopesAfter(evs[0], scopes))
  }

  lemma {:induction false} ResolveConcat(a: seq<Event>, b: seq<Event>, scopes: seq<Scope>, wc: bool)
    ensures Resolve(a + b, scopes, wc) == Resolve(a, scopes, wc) + Resolve(b, ScopesThrough(a, scopes), wc)
  {
    if a == [] {
      assert a + b == b;
    } else {
      assert (a + b)[1..] == a[1..] + b;
      ResolveConcat(a[1..], b, ScopesAfter(a[0], scopes), wc);
      Assoc(ItemsOf(a[0], scopes, wc), Resolve(a[1..], ScopesAfter(a[0], scopes), wc),
            Resolve(b, ScopesThrough(a, scopes), wc));
    }
  }

  /** Replacing `x` by `y` between any `pre` and `post` keeps the items when it does so in
      every scope and leaves the scopes alone. */
  lemma {:induction false} ResolveInContext(pre: seq<Event>, x: seq<Event>, y: seq<Event>, post: seq<Event>, wc: bool)
    requires var scopes := ScopesThrough(pre, BARE);
             Resolve(x, scopes, wc) == Resolve(y, scopes, wc)
             && ScopesThrough(x, scopes) == ScopesThrough(y, scopes)
    ensures Resolve(pre + x + post, BARE, wc) == Resolve(pre + y + post, BARE, wc)
  {
    var scopes := ScopesThrough(pre, BARE);
    assert pre + x + post == pre + (x + post) && pre + y + post == pre + (y + post);
    ResolveConcat(pre, x + post, BARE, wc);
    ResolveConcat(pre, y + post, BARE, wc);
    ResolveConcat(x, post, scopes, wc);
    ResolveConcat(y, post, scopes, wc);
  }

  lemma {:induction false} ResolveOne(e: Event, scopes: seq<Scope>, wc: bool)
    ensures Resolve([e], scopes, wc) == ItemsOf(e, scopes, wc)
    ensures ScopesThrough([e], scopes) == ScopesAfter(e, scopes)
  {
    assert [e][1..] == [];
  }

  /** `<a/>` and `<a></a>`. */
  lemma {:induction false} EmptyElementForm(pre: seq<Event>, name: string, attrs: seq<Attr>, post: seq<Event>, wc: bool)
    ensures Canonical(pre + [Empty(name, attrs)] + post, wc)
            == Canonical(pre + [Start(name, attrs), End(name)] + post, wc)
  {
    var scopes := ScopesThrough(pre, BARE);
    var s, e := Start(name, attrs), End(name);
    ResolveOne(Empty(name, attrs), scopes, wc);
    ResolveOne(s, scopes, wc);
    ResolveOne(e, ScopesAfter(s, scopes), wc);
    assert [s, e] == [s] + [e] && [s, e][1..] == [e];
    ResolveConcat([s], [e], scopes, wc);
    assert Pop(ScopesAfter(s, scopes)) == scopes;
    assert Resolve([Empty(name, attrs)], scopes, wc) == Resolve([s, e], scopes, wc);
    ResolveInContext(pre, [Empty(name, attrs)], [s, e], post, wc);
  }

  /** A CDATA section and the same characters as text. */
  lemma {:induction false} CDataForm(pre: seq<Event>, text: string, post: seq<Event>, wc: bool)
    ensures Canonical(pre + [CData(text)] + post, wc) == Canonical(pre + [Text(text)] + post, wc)
  {
    ResolveOne(CData(text), ScopesThrough(pre, BARE), wc);
    ResolveOne(Text(text), ScopesThrough(pre, BARE), wc);
    ResolveInContext(pre, [CData(text)], [Text(text)], post, wc);
  }

  lemma {:induction false} InvisibleHere(e: Event, post: seq<Event>, scopes: seq<Scope>, wc: bool)
    requires e.Decl? || e.DocType? || (e.Comment? && !wc)
    ensures Resolve([e] + post, scopes, wc) == Resolve(post, scopes, wc)
  {
    assert ([e] + post)[1..] == post;
    assert [] + Resolve(post, scopes, wc) == Resolve(post, scopes, wc);
  }

  lemma {:induction false} ResolveBehind(pre: seq<Event>, x: seq<Event>, y: seq<Event>, wc: bool)
    requires Resolve(x, ScopesThrough(pre, BARE), wc) == Resolve(y, ScopesThrough(pre, BARE), wc)
    ensures Resolve(pre + x, BARE, wc) == Resolve(pre + y, BARE, wc)
  {
    ResolveConcat(pre, x, BARE, wc);
    ResolveConcat(pre, y, BARE, wc);
  }

  /** Declarations, doctypes and (in the variant without comments) comments vanish. */
  lemma {:induction false} InvisibleForm(pre: seq<Event>, e: Event, post: seq<Event>, wc: bool)
    requires e.Decl? || e.DocType? || (e.Comment? && !wc)
    ensures Canonical(pre + [e] + post, wc) == Canonical(pre + post, wc)
  {
    InvisibleHere(e, post, ScopesThrough(pre, BARE), wc);
    ResolveBehind(pre, [e] + post, post, wc);
    Assoc(pre, [e], post);
  }

  // -------------------------------------------------------------- attribute order

  /** Declarations of one prefix agree (an element cannot declare a prefix twice). */
  ghost predicate DeclsAgree(attrs: seq<Attr>) {
    forall a, b :: a in attrs && b in attrs && IsDecl(a.key) && IsDecl(b.key) ==>
      DeclPrefix(a.key) == DeclPrefix(b.key) ==> a.value == b.value
  }

  ghost predicate Declares(attrs: seq<Attr>, a: Attr, p: string) {
    a in attrs && IsDecl(a.key) && DeclPrefix(a.key) == p
  }

  lemma {:induction false} ExtendIs(scope: Scope, attrs: seq<Attr>, p: string)
    requires DeclsAgree(attrs)
    ensures forall a :: Declares(attrs, a, p) ==> p in Extend(scope, attrs) && Extend(scope, attrs)[p] == a.value
    ensures (forall a :: !Declares(attrs, a, p)) ==>
              (p in Extend(scope, attrs) <==> p in scope) && (p in scope ==> Extend(scope, attrs)[p] == scope[p])
  {
    if attrs != [] {
      var n := |attrs| - 1;
      var last := attrs[n];
      assert last in attrs && forall a :: a in attrs[..n] ==> a in attrs;
      ExtendIs(scope, attrs[..n], p);
      assert forall a :: Declares(attrs[..n], a, p) ==> Declares(attrs, a, p);
      if IsDecl(last.key) && DeclPrefix(last.key) == p {
        assert Declares(attrs, last, p);
      } else {
        forall a | Declares(attrs, a, p) ensures Declares(attrs[..n], a, p) {
          var i :| 0 <= i < |attrs| && attrs[i] == a;
          assert i < n && attrs[..n][i] == a;
        }
      }
    }
  }

  lemma {:induction false} ExtendPermuted(scope: Scope, a: seq<Attr>, b: seq<Attr>)
    requires multiset(a) == multiset(b) && DeclsAgree(a)
    ensures Extend(scope, a) == Extend(scope, b)
  {
    assert forall x :: x in a <==> x in multiset(a);
    assert forall x :: x in b <==> x in multiset(b);
    assert DeclsAgree(b);
    forall p ensures p in Extend(scope, a) <==> p in Extend(scope, b)
             ensures p in Extend(scope, a) && p in Extend(scope, b) ==> Extend(scope, a)[p] == Extend(scope, b)[p]
    {
      ExtendIs(scope, a, p);
      ExtendIs(scope, b, p);
      if x :| Declares(a, x, p) {
        assert Declares(b, x, p);
      } else {
        assert forall x :: Declares(b, x, p) ==> Declares(a, x, p);
      }
    }
  }

  function Kept(scope: Scope, a: Attr): seq<AttrItem> {
    if IsDecl(a.key) then [] else [ResolveAttr(scope, a)]
  }

  lemma {:induction false} ResolveAttrsConcat(scope: Scope, a: seq<Attr>, b: seq<Attr>)
    ensures ResolveAttrs(scope, a + b) == ResolveAttrs(scope, a) + ResolveAttrs(scope, b)
  {
    if b == [] {
      assert a + b == a;
    } else {
      var n := |b| - 1;
      ResolveAttrsConcat(scope, a, b[..n]);
      assert a + b == a + b[..n] + [b[n]] && b == b[..n] + [b[n]];
      ResolveSnoc(scope, a + b[..n], b[n]);
      ResolveSnoc(scope, b[..n], b[n]);
      Assoc(ResolveAttrs(scope, a), ResolveAttrs(scope, b[..n]), Kept(scope, b[n]));
    }
  }

  lemma {:induction false} ResolveMiddle(scope: Scope, u: seq<Attr>, x: Attr, v: seq<Attr>)
    ensures multiset(ResolveAttrs(scope, u + [x] + v))
            == multiset(ResolveAttrs(scope, u + v)) + multiset(ResolveAttrs(scope, [x]))
  {
    ResolveAttrsConcat(scope, u + [x], v);
    ResolveAttrsConcat(scope, u, [x]);
    ResolveAttrsConcat(scope, u, v);
  }

  lemma {:induction false} ResolveAttrsPermuted(scope: Scope, a: seq<Attr>, b: seq<Attr>)
    requires multiset(a) == multiset(b)
    ensures multiset(ResolveAttrs(scope, a)) == multiset(ResolveAttrs(scope, b))
  {
    if a == [] {
      assert |multiset(b)| == 0;
    } else {
      var n := |a| - 1;
      var x := a[n];
      var u, v := WithoutLast(a, b);
      assert a == a[..n] + [x];
      ResolveAttrsPermuted(scope, a[..n], u + v);
      ResolveAttrsConcat(scope, a[..n], [x]);
      ResolveMiddle(scope, u, x, v);
    }
  }

  /** No two different attributes share local name and resolved URI. */
  ghost predicate Untied(attrs: seq<AttrItem>) {
    forall x, y :: x in attrs && y in attrs && x.uri == y.uri && x.local == y.local ==> x == y
  }

  /** Two attributes that compare equal have the same URI and local name. */
  lemma {:induction false} TieIs(x: AttrItem, y: AttrItem)
    ensures AttrLe(x, y) && AttrLe(y, x) <==> x.uri == y.uri && x.local == y.local
  {
    StrLeTotal(x.local, x.local);
    if AttrLe(x, y) && AttrLe(y, x) {
      if x.uri == y.uri {
        StrLeAntisymmetric(x.local, y.local);
      } else {
        StrLeAntisymmetric(x.uri, y.uri);
      }
    }
  }

  lemma {:induction false} SortedSame(a: seq<AttrItem>, b: seq<AttrItem>)
    requires multiset(a) == multiset(b) && Untied(a)
    ensures Sort(AttrLe, a) == Sort(AttrLe, b)
  {
    var x, y := Sort(AttrLe, a), Sort(AttrLe, b);
    AttrOrder();
    SortSorts(AttrLe, a);
    SortSorts(AttrLe, b);
    SortedAttrs(a);
    forall i, j | 0 <= i < j < |x| && AttrLe(x[i], x[j]) && AttrLe(x[j], x[i]) ensures x[i] == x[j] {
      TieIs(x[i], x[j]);
      assert x[i] in a && x[j] in a;
    }
    SortedUnique(AttrLe, x, y);
  }

  lemma {:induction false} ResolveAround(pre: seq<Event>, name: string, attrs: seq<Attr>, post: seq<Event>, wc: bool)
    ensures var scopes := ScopesThrough(pre, BARE);
            var scope := Extend(Top(scopes), attrs);
            Resolve(pre + [Start(name, attrs)] + post, BARE, wc)
            == Resolve(pre, BARE, wc) + [OpenItem(name, attrs, scope)] + Resolve(post, scopes + [scope], wc)
  {
    var e := Start(name, attrs);
    ResolveConcat(pre + [e], post, BARE, wc);
    ResolveConcat(pre, [e], BARE, wc);
    ScopesThroughConcat(pre, [e], BARE);
    ResolveOne(e, ScopesThrough(pre, BARE), wc);
  }

  lemma {:induction false} EmitReplaced(p: seq<Item>, i: Item, j: Item, q: seq<Item>)
    requires SortItem(i) == SortItem(j)
    requires forall it :: it in p + [i] + q || it in p + [j] + q ==> Sound(it)
    ensures Emit(p + [i] + q, BARE) == Emit(p + [j] + q, BARE)
  {
    EmitSorted(p + [i] + q, BARE);
    EmitSorted(p + [j] + q, BARE);
    SortItemsConcat(p + [i], q);
    SortItemsConcat(p + [j], q);
    SortItemsConcat(p, [i]);
    SortItemsConcat(p, [j]);
  }

  /** The order of attributes and declarations does not matter. */
  lemma {:induction false} AttributeOrderForm(pre: seq<Event>, name: string, a: seq<Attr>, b: seq<Attr>, post: seq<Event>, wc: bool)
    requires multiset(a) == multiset(b) && DeclsAgree(a)
    requires forall e :: e in pre + [Start(name, a)] + post ==> PlainEvent(e)
    requires Untied(ResolveAttrs(Extend(Top(ScopesThrough(pre, BARE)), a), a))
    ensures Canonical(pre + [Start(name, a)] + post, wc) == Canonical(pre + [Start(name, b)] + post, wc)
  {
    var scopes := ScopesThrough(pre, BARE);
    ExtendPermuted(Top(scopes), a, b);
    var scope := Extend(Top(scopes), a);
    ResolveAttrsPermuted(scope, a, b);
    SortedSame(ResolveAttrs(scope, a), ResolveAttrs(scope, b));
    ResolveAround(pre, name, a, post, wc);
    ResolveAround(pre, name, b, post, wc);
    PlainPermuted(pre, name, a, b, post);
    ResolvedSound(pre + [Start(name, a)] + post, BARE, wc);
    ResolvedSound(pre + [Start(name, b)] + post, BARE, wc);
    EmitReplaced(Resolve(pre, BARE, wc), OpenItem(name, a, scope), OpenItem(name, b, scope),
                 Resolve(post, scopes + [scope], wc));
  }

  lemma {:induction false} PlainPermuted(pre: seq<Event>, name: string, a: seq<Attr>, b: seq<Attr>, post: seq<Event>)
    requires multiset(a) == multiset(b)
    requires forall e :: e in pre + [Start(name, a)] + post ==> PlainEvent(e)
    ensures forall e :: e in pre + [Start(name, b)] + post ==> PlainEvent(e)
  {
    assert PlainEvent(Start(name, a)) by { assert (pre + [Start(name, a)] + post)[|pre|] == Start(name, a); }
    assert PlainEvent(Start(name, b)) by {
      forall x | x in b ensures x.key != ":xmlns" { assert x in multiset(a) && x in a; }
    }
    forall e | e in pre || e in post ensures PlainEvent(e) {
      assert e in pre + [Start(name, a)] + post;
    }
  }

  lemma {:induction false} ScopesThroughConcat(a: seq<Event>, b: seq<Event>, scopes: seq<Scope>)
    ensures ScopesThrough(a + b, scopes) == ScopesThrough(b, ScopesThrough(a, scopes))
  {
    if a == [] {
      assert a + b == b;
    } else {
      assert (a + b)[1..] == a[1..] + b;
      ScopesThroughConcat(a[1..], b, ScopesAfter(a[0], scopes));
    }
  }

  lemma {:induction false} SortItemsConcat(a: seq<Item>, b: seq<Item>)
    ensures SortItems(a + b) == SortItems(a) + SortItems(b)
  {
    if a == [] {
      assert a + b == b;
    } else {
      assert (a + b)[1..] == a[1..] + b;
      SortItemsConcat(a[1..], b);
      Assoc([SortItem(a[0])], SortItems(a[1..]), SortItems(b));
    }
  }
}
