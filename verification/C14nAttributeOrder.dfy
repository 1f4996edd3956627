/** When the order of attributes is invisible, exactly; and the documents on which canonical
    bytes and infoset part. */
module C14nAttributeOrder {
  import opened Basics
  import opened XmlModel
  import opened Ordering
  import opened C14nSpec
  import opened C14nTheorems
  import opened C14nVariants
  import opened C14nDocuments
  import opened C14nReader
  import opened C14nInfoset

  // -------------------------------------------------- one element in its document

  lemma {:induction false} JoinOneBefore(it: Item, rest: seq<Item>, o: Item, after: seq<Item>)
    requires o.Open?
    ensures JoinOne(it, rest + ([o] + after)) == JoinOne(it, rest) + ([o] + after)
  {
    if rest == [] {
      assert rest + ([o] + after) == [o] + after;
    } else {
      assert (rest + ([o] + after))[1..] == rest[1..] + ([o] + after);
      var both := [Chars((if it.Chars? then it.text else "") + (if rest[0].Chars? then rest[0].text else ""))];
      Assoc(both, rest[1..], [o] + after);
    }
    Assoc([it], rest, [o] + after);
  }

  /** Text is never joined across a tag. */
  lemma {:induction false} JoinAround(p: seq<Item>, o: Item, q: seq<Item>)
    requires o.Open?
    ensures JoinText(p + ([o] + q)) == JoinText(p) + ([o] + JoinText(q))
  {
    if p == [] {
      assert p + ([o] + q) == [o] + q && ([o] + q)[1..] == q;
      assert JoinText(p) + ([o] + JoinText(q)) == [o] + JoinText(q);
    } else {
      assert (p + ([o] + q))[1..] == p[1..] + ([o] + q);
      JoinAround(p[1..], o, q);
      JoinOneBefore(p[0], JoinText(p[1..]), o, JoinText(q));
    }
  }

  lemma {:induction false} NormalAround(p: seq<Item>, o: Item, q: seq<Item>)
    requires o.Open?
    ensures Normal(p + [o] + q) == Normal(p) + ([SortItem(o)] + Normal(q))
  {
    Assoc(p, [o], q);
    JoinAround(p, o, q);
    SortItemsConcat(JoinText(p), [o] + JoinText(q));
    SortItemsConcat([o], JoinText(q));
    assert [o][1..] == [];
  }

  ghost predicate SameBytes(pre: seq<Event>, name: string, a: seq<Attr>, b: seq<Attr>, post: seq<Event>, wc: bool) {
    Canonical(pre + [Start(name, a)] + post, wc) == Canonical(pre + [Start(name, b)] + post, wc)
  }

  /** Documents that differ in the sorted attributes of one element have different bytes. */
  lemma {:induction false} ElementShows(pre: seq<Event>, name: string, a: seq<Attr>, b: seq<Attr>, post: seq<Event>, wc: bool)
    requires Parsed(pre + [Start(name, a)] + post) && Parsed(pre + [Start(name, b)] + post)
    requires var scope := Top(ScopesThrough(pre, BARE));
             && Extend(scope, a) == Extend(scope, b)
             && Sort(AttrLe, ResolveAttrs(Extend(scope, a), a)) != Sort(AttrLe, ResolveAttrs(Extend(scope, a), b))
    ensures !SameBytes(pre, name, a, b, post, wc)
  {
    var scopes := ScopesThrough(pre, BARE);
    var scope := Extend(Top(scopes), a);
    var p, q := Resolve(pre, BARE, wc), Resolve(post, scopes + [scope], wc);
    ResolveAround(pre, name, a, post, wc);
    ResolveAround(pre, name, b, post, wc);
    var o, o' := OpenItem(name, a, scope), OpenItem(name, b, scope);
    NormalAround(p, o, q);
    NormalAround(p, o', q);
    assert (Normal(p) + ([SortItem(o)] + Normal(q)))[|Normal(p)|] == SortItem(o);
    assert (Normal(p) + ([SortItem(o')] + Normal(q)))[|Normal(p)|] == SortItem(o');
    SameBytesIffSameItems(pre + [Start(name, a)] + post, pre + [Start(name, b)] + post, wc);
  }

  // ------------------------------------------------------------------- permutations

  lemma {:induction false} ParsedPermuted(pre: seq<Event>, name: string, a: seq<Attr>, b: seq<Attr>, post: seq<Event>)
    requires multiset(a) == multiset(b)
    requires Parsed(pre + [Start(name, a)] + post)
    ensures Parsed(pre + [Start(name, b)] + post)
  {
    var s, t := Start(name, a), Start(name, b);
    var d := pre + [s] + post;
    assert d[|pre|] == s;
    forall x | x in b ensures x in a { assert x in multiset(b); }
    assert PlainEvent(t) && Spelled(t) && BindsNoEmptyUri(b) by { assert PlainEvent(s) && Spelled(s); }
    forall e | e in pre || e in post ensures e in d {}
  }

  lemma {:induction false} SwapPermutes(u: seq<Attr>, x: Attr, m: seq<Attr>, y: Attr, v: seq<Attr>)
    ensures multiset(u + [x] + m + [y] + v) == multiset(u + [y] + m + [x] + v)
  {}

  lemma {:induction false} ResolveFive(scope: Scope, u: seq<Attr>, x: Attr, m: seq<Attr>, y: Attr, v: seq<Attr>)
    requires !IsDecl(x.key) && !IsDecl(y.key)
    ensures ResolveAttrs(scope, u + [x] + m + [y] + v)
            == ResolveAttrs(scope, u) + [ResolveAttr(scope, x)] + ResolveAttrs(scope, m)
               + [ResolveAttr(scope, y)] + ResolveAttrs(scope, v)
  {
    ResolveAttrsConcat(scope, u + [x] + m + [y], v);
    ResolveSnoc(scope, u + [x] + m, y);
    ResolveAttrsConcat(scope, u + [x], m);
    ResolveSnoc(scope, u, x);
  }

  /** Two attributes exchanged between `u`, `m` and `v`. */
  datatype Swap = Swap(u: seq<Attr>, x: Attr, m: seq<Attr>, y: Attr, v: seq<Attr>)
  {
    function From(): seq<Attr> { u + [x] + m + [y] + v }
    function To(): seq<Attr> { u + [y] + m + [x] + v }
  }

  /** The two are different and share local name and resolved URI. */
  ghost predicate Ties(scope: Scope, s: Swap) {
    && !IsDecl(s.x.key) && !IsDecl(s.y.key)
    && var i, j := ResolveAttr(scope, s.x), ResolveAttr(scope, s.y);
       i != j && i.uri == j.uri && i.local == j.local
  }

  lemma {:induction false} SwapResolved(scope: Scope, u: seq<Attr>, x: Attr, m: seq<Attr>, y: Attr, v: seq<Attr>)
    requires !IsDecl(x.key) && !IsDecl(y.key)
    requires var i, j := ResolveAttr(scope, x), ResolveAttr(scope, y); i != j && i.uri == j.uri && i.local == j.local
    ensures Sort(AttrLe, ResolveAttrs(scope, u + [x] + m + [y] + v))
            != Sort(AttrLe, ResolveAttrs(scope, u + [y] + m + [x] + v))
  {
    ResolveFive(scope, u, x, m, y, v);
    ResolveFive(scope, u, y, m, x, v);
    AttrOrder();
    TieIs(ResolveAttr(scope, x), ResolveAttr(scope, y));
    SwapShows(AttrLe, ResolveAttrs(scope, u), ResolveAttr(scope, x), ResolveAttrs(scope, m),
              ResolveAttr(scope, y), ResolveAttrs(scope, v));
  }

  /** Exchanging two different attributes that share local name and resolved URI changes the
      bytes. */
  lemma {:induction false} SwapDiffers(pre: seq<Event>, name: string, s: Swap, post: seq<Event>, wc: bool)
    requires Parsed(pre + [Start(name, s.From())] + post) && DeclsAgree(s.From())
    requires Ties(Extend(Top(ScopesThrough(pre, BARE)), s.From()), s)
    ensures multiset(s.From()) == multiset(s.To()) && !SameBytes(pre, name, s.From(), s.To(), post, wc)
  {
    var outer := Top(ScopesThrough(pre, BARE));
    SwapPermutes(s.u, s.x, s.m, s.y, s.v);
    SwapResolved(Extend(outer, s.From()), s.u, s.x, s.m, s.y, s.v);
    ParsedPermuted(pre, name, s.From(), s.To(), post);
    ExtendPermuted(outer, s.From(), s.To());
    ElementShows(pre, name, s.From(), s.To(), post, wc);
  }

  lemma {:induction false} ResolvedFrom(scope: Scope, attrs: seq<Attr>, x: AttrItem) returns (k: nat)
    requires x in ResolveAttrs(scope, attrs)
    ensures k < |attrs| && !IsDecl(attrs[k].key) && ResolveAttr(scope, attrs[k]) == x
  {
    var n := |attrs| - 1;
    if x in ResolveAttrs(scope, attrs[..n]) {
      k := ResolvedFrom(scope, attrs[..n], x);
    } else {
      k := n;
    }
  }

  /** All orders of these attributes canonicalise alike. */
  ghost predicate OrderUnseen(pre: seq<Event>, name: string, a: seq<Attr>, post: seq<Event>, wc: bool) {
    forall b :: multiset(b) == multiset(a) ==> SameBytes(pre, name, a, b, post, wc)
  }

  lemma {:induction false} CutTwice(a: seq<Attr>, k: nat, l: nat)
    requires k < l < |a|
    ensures Swap(a[..k], a[k], a[k + 1..l], a[l], a[l + 1..]).From() == a
  {}

  /** Attributes that tie can be exchanged. */
  lemma {:induction false} TieFound(scope: Scope, a: seq<Attr>) returns (s: Swap)
    requires !Untied(ResolveAttrs(scope, a))
    ensures s.From() == a && Ties(scope, s)
  {
    var items := ResolveAttrs(scope, a);
    var x, y :| x in items && y in items && x.uri == y.uri && x.local == y.local && x != y;
    var k := ResolvedFrom(scope, a, x);
    var l := ResolvedFrom(scope, a, y);
    if l < k { k, l := l, k; }
    CutTwice(a, k, l);
    s := Swap(a[..k], a[k], a[k + 1..l], a[l], a[l + 1..]);
  }

  /** In any parsed document, all orders of the attributes of an element canonicalise alike
      exactly when no two different ones share local name and resolved URI. (An empty element
      is its start-tag and end-tag.) */
  lemma {:induction false} AttributeOrderExact(pre: seq<Event>, name: string, a: seq<Attr>, post: seq<Event>, wc: bool)
    requires Parsed(pre + [Start(name, a)] + post) && DeclsAgree(a)
    ensures OrderUnseen(pre, name, a, post, wc)
            <==> Untied(ResolveAttrs(Extend(Top(ScopesThrough(pre, BARE)), a), a))
  {
    var scope := Extend(Top(ScopesThrough(pre, BARE)), a);
    var items := ResolveAttrs(scope, a);
    if Untied(items) {
      forall b | multiset(b) == multiset(a) ensures SameBytes(pre, name, a, b, post, wc) {
        AttributeOrderForm(pre, name, a, b, post, wc);
      }
    } else {
      var s := TieFound(scope, a);
      SwapDiffers(pre, name, s, post, wc);
    }
  }

  // ------------------------------------------------------------------- witnesses

  lemma {:induction false} NameJoined(prefix: string, local: string)
    requires NameChars(Join(prefix, local)) && local != "" && ':' !in local
    ensures NameOk(Join(prefix, local)) && SplitQName(Join(prefix, local)) == QName(prefix, local)
  {
    SplitJoin(prefix, local);
  }

  /** The attributes of the witnesses. */
  const ID := Attr("id", "1")
  const XML_ID := Attr("xml:id", "2")
  const XML_DECL := Attr("xmlns:xml", XML_URI)

  lemma {:induction false} ElementName()
    ensures NameOk("a") && SplitQName("a") == QName("", "a")
  {
    assert "a" == Join("", "a");
    NameJoined("", "a");
  }

  lemma {:induction false} IdName()
    ensures NameOk(ID.key) && SplitQName(ID.key) == QName("", "id")
    ensures !IsDecl(ID.key) && ID.key != ":xmlns"
  {
    assert "id" == Join("", "id");
    NameJoined("", "id");
  }

  lemma {:induction false} JoinedChars(prefix: string, local: string)
    requires NameChars(prefix) && NameChars(local)
    ensures NameChars(Join(prefix, local))
  {
    forall c | c in Join(prefix, local) ensures !IsMarkup(c) {
      assert c in prefix || c == ':' || c in local;
    }
  }

  lemma {:induction false} NotDeclared(key: string)
    requires |key| >= 4 && key[0] != ':' && key[3] != 'n'
    ensures !IsDecl(key) && key != ":xmlns"
  {
    assert |key| >= 6 ==> key[..6][3] == key[3] != "xmlns:"[3];
  }

  lemma {:induction false} XmlIdName()
    ensures NameOk(XML_ID.key) && SplitQName(XML_ID.key) == QName("xml", "id")
    ensures !IsDecl(XML_ID.key) && XML_ID.key != ":xmlns"
  {
    assert XML_ID.key == Join("xml", "id");
    JoinedChars("xml", "id");
    NameJoined("xml", "id");
    NotDeclared(XML_ID.key);
  }

  lemma {:induction false} XmlDeclName()
    ensures NameOk(XML_DECL.key) && IsDecl(XML_DECL.key) && DeclPrefix(XML_DECL.key) == "xml"
    ensures XML_DECL.key != ":xmlns" && XML_DECL.value != ""
  {
    assert XML_DECL.key == Join("xmlns", "xml") == DeclKey("xml");
    JoinedChars("xmlns", "xml");
    NameJoined("xmlns", "xml");
    DeclKeyRoundTrip("xml");
    assert XML_DECL.key[0] == 'x';
  }

  /** An attribute that may stand in a parsed document. */
  ghost predicate AttrOk(a: Attr) {
    NameOk(a.key) && a.key != ":xmlns" && (IsDecl(a.key) && DeclPrefix(a.key) != "" ==> a.value != "")
  }

  lemma {:induction false} OneParsed(e: Event)
    requires (e.Start? || e.Empty?) && NameOk(e.name) && forall a :: a in e.attrs ==> AttrOk(a)
    ensures Parsed([e])
  {}

  /** `<a xmlns="u"/>` and `<a xmlns="v"/>`: one canonical form for two namespaces. */
  lemma {:induction false} DefaultCollision(wc: bool)
    ensures var a, b := [Empty("a", [Attr("xmlns", "u")])], [Empty("a", [Attr("xmlns", "v")])];
            && Parsed(a) && Parsed(b) && Canonical(a, wc) == Canonical(b, wc)
            && Infoset(a, wc) != Infoset(b, wc)
  {
    ElementName();
    OneParsed(Empty("a", []));
    OneDefaulted("a", "u");
    OneDefaulted("a", "v");
    PrefixedParts([Empty("a", [])]);
    Collision([Empty("a", [])], "u", "v", wc);
  }

  lemma {:induction false} OneDefaulted(name: string, uri: string)
    ensures AllDefaulted([Empty(name, [])], uri) == [Empty(name, [Attr("xmlns", uri)])]
  {
    assert DefaultedAttrs([], uri) == [Attr("xmlns", uri)];
  }

  /** Any document with an unprefixed element has such a pair. */
  lemma {:induction false} Collision(evs: seq<Event>, u: string, v: string, wc: bool)
    requires Parsed(evs) && !AllPrefixed(evs) && u != v
    ensures var a, b := AllDefaulted(evs, u), AllDefaulted(evs, v);
            && Parsed(a) && Parsed(b) && Canonical(a, wc) == Canonical(b, wc)
            && Infoset(a, wc) != Infoset(b, wc)
  {
    DefaultedParsed(evs, u);
    DefaultedParsed(evs, v);
    DefaultUnseen(evs, u, wc);
    DefaultUnseen(evs, v, wc);
    DefaultShows(evs, BARE, BARE, u, v);
    InfosetUris(AllDefaulted(evs, u), wc);
    InfosetUris(AllDefaulted(evs, v), wc);
  }

  /** `<a id="1" xml:id="2">` with its attributes in either order: one infoset, two
      canonical forms. */
  lemma {:induction false} TieWitness(wc: bool)
    ensures var a, b := [Start("a", [ID, XML_ID])], [Start("a", [XML_ID, ID])];
            && Parsed(a) && Parsed(b) && Infoset(a, wc) == Infoset(b, wc)
            && Canonical(a, wc) != Canonical(b, wc)
  {
    ElementName();
    IdName();
    XmlIdName();
    OneParsed(Start("a", [ID, XML_ID]));
    OneParsed(Start("a", [XML_ID, ID]));
    TwoAttrs(map[], ID, XML_ID);
    TwoAttrs(map[], XML_ID, ID);
    SameNodes("a", ID, XML_ID, wc);
    TieAlone("a", ID, XML_ID, wc);
  }

  lemma {:induction false} TieAlone(name: string, x: Attr, y: Attr, wc: bool)
    requires Parsed([Start(name, [x, y])]) && !IsDecl(x.key) && !IsDecl(y.key)
    requires var i, j := ResolveAttr(map[], x), ResolveAttr(map[], y); i != j && i.uri == j.uri && i.local == j.local
    ensures Canonical([Start(name, [x, y])], wc) != Canonical([Start(name, [y, x])], wc)
  {
    TwoAttrs(map[], x, y);
    Alone(Start(name, [x, y]));
    Alone(Start(name, [y, x]));
    SwapOfTwo(x, y);
    SwapDiffers([], name, Swap([], x, [], y, []), [], wc);
  }

  lemma {:induction false} SwapOfTwo(x: Attr, y: Attr)
    ensures var s := Swap([], x, [], y, []); s.From() == [x, y] && s.To() == [y, x]
  {}

  lemma {:induction false} Alone(e: Event)
    ensures [] + [e] + [] == [e]
    ensures Top(ScopesThrough([], BARE)) == map[]
  {}

  /** Two attributes in either order are the same nodes. */
  lemma {:induction false} SameNodes(name: string, x: Attr, y: Attr, wc: bool)
    requires !IsDecl(x.key) && !IsDecl(y.key)
    ensures Infoset([Start(name, [x, y])], wc) == Infoset([Start(name, [y, x])], wc)
  {
    TwoAttrs(map[], x, y);
    TwoAttrs(map[], y, x);
    OneNode(Start(name, [x, y]), wc);
    OneNode(Start(name, [y, x]), wc);
    assert AttrNodes(map[], [x, y]) == AttrNodes(map[], [y, x]);
  }

  lemma {:induction false} OneNode(e: Event, wc: bool)
    ensures Nodes([e], BARE, wc) == NodesOf(e, BARE, wc) && Top(BARE) == map[]
  {
    assert [e][1..] == [];
  }

  lemma {:induction false} OneAttr(scope: Scope, x: Attr)
    ensures Extend(scope, [x]) == if IsDecl(x.key) then scope[DeclPrefix(x.key) := x.value] else scope
    ensures AttrNodes(scope, [x]) == if IsDecl(x.key) then multiset{} else multiset{AttrNode(scope, x)}
    ensures ResolveAttrs(scope, [x]) == if IsDecl(x.key) then [] else [ResolveAttr(scope, x)]
  {
    assert [x][..0] == [];
  }

  lemma {:induction false} TwoAttrs(scope: Scope, x: Attr, y: Attr)
    requires !IsDecl(y.key)
    ensures Extend(scope, [x, y]) == Extend(scope, [x])
    ensures AttrNodes(scope, [x, y]) == AttrNodes(scope, [x]) + multiset{AttrNode(scope, y)}
    ensures ResolveAttrs(scope, [x, y]) == ResolveAttrs(scope, [x]) + [ResolveAttr(scope, y)]
    ensures !IsDecl(x.key) ==> Extend(scope, [x]) == scope && AttrNodes(scope, [x]) == multiset{AttrNode(scope, x)}
  {
    assert [x, y][..1] == [x];
    OneAttr(scope, x);
  }

  /** `<a xml:id="2"/>` with and without a declaration of `xml`: one infoset, two canonical
      forms. */
  lemma {:induction false} XmlWitness(wc: bool)
    ensures var a, b := [Empty("a", [XML_ID])], [Empty("a", [XML_DECL, XML_ID])];
            && Parsed(a) && Parsed(b) && Infoset(a, wc) == Infoset(b, wc)
            && Canonical(a, wc) != Canonical(b, wc)
  {
    ElementName();
    XmlIdName();
    XmlDeclName();
    OneParsed(Empty("a", [XML_ID]));
    OneParsed(Empty("a", [XML_DECL, XML_ID]));
    XmlShows("a", XML_DECL, XML_ID, wc);
  }

  /** Declaring `xml` changes how the code resolves an attribute that uses it. */
  lemma {:induction false} XmlShows(name: string, d: Attr, x: Attr, wc: bool)
    requires IsDecl(d.key) && DeclPrefix(d.key) == "xml" && d.value != ""
    requires !IsDecl(x.key) && SplitQName(x.key).prefix == "xml"
    requires SplitQName(name).prefix == "" && Parsed([Empty(name, [x])]) && Parsed([Empty(name, [d, x])])
    ensures Infoset([Empty(name, [x])], wc) == Infoset([Empty(name, [d, x])], wc)
    ensures Canonical([Empty(name, [x])], wc) != Canonical([Empty(name, [d, x])], wc)
  {
    XmlAttrs(d, x);
    XmlNodes(name, d, x, wc);
    OneElementItems(name, [x], wc);
    OneElementItems(name, [d, x], wc);
    SameBytesIffSameItems([Empty(name, [x])], [Empty(name, [d, x])], wc);
  }

  lemma {:induction false} XmlNodes(name: string, d: Attr, x: Attr, wc: bool)
    requires IsDecl(d.key) && DeclPrefix(d.key) == "xml" && SplitQName(name).prefix == ""
    requires Extend(map[], [x]) == map[] && Extend(map[], [d, x]) == map["xml" := d.value]
    requires AttrNodes(map[], [x]) == AttrNodes(map["xml" := d.value], [d, x])
    ensures Infoset([Empty(name, [x])], wc) == Infoset([Empty(name, [d, x])], wc)
  {
    OneNode(Empty(name, [x]), wc);
    OneNode(Empty(name, [d, x]), wc);
    assert ElementNode(name, [x], map[]) == ElementNode(name, [d, x], map["xml" := d.value]);
  }

  lemma {:induction false} XmlAttrs(d: Attr, x: Attr)
    requires IsDecl(d.key) && DeclPrefix(d.key) == "xml" && d.value != ""
    requires !IsDecl(x.key) && SplitQName(x.key).prefix == "xml"
    ensures var declared := map["xml" := d.value];
            && Extend(map[], [x]) == map[] && Extend(map[], [d, x]) == declared
            && AttrNodes(map[], [x]) == AttrNodes(declared, [d, x])
            && Sort(AttrLe, ResolveAttrs(map[], [x])) != Sort(AttrLe, ResolveAttrs(declared, [d, x]))
  {
    var declared := map["xml" := d.value];
    OneAttr(map[], x);
    OneAttr(map[], d);
    OneAttr(declared, d);
    TwoAttrs(map[], d, x);
    TwoAttrs(declared, d, x);
    SortOne(ResolveAttr(map[], x));
    SortOne(ResolveAttr(declared, x));
  }

  lemma {:induction false} OneElementItems(name: string, attrs: seq<Attr>, wc: bool)
    ensures var scope := Extend(map[], attrs);
            |ResolvedItems([Empty(name, attrs)], wc)| == 2
            && ResolvedItems([Empty(name, attrs)], wc)[0] == SortItem(OpenItem(name, attrs, scope))
  {
    var e := Empty(name, attrs);
    ResolveOne(e, BARE, wc);
    var o, c := OpenItem(name, attrs, Extend(map[], attrs)), CloseItem(name);
    assert Top(BARE) == map[] && Resolve([e], BARE, wc) == [o, c];
    assert [o, c][1..] == [c] && [c][1..] == [];
    assert JoinText([c]) == [c] && JoinText([o, c]) == [o, c];
  }

  lemma {:induction false} SortOne(x: AttrItem)
    ensures Sort(AttrLe, [x]) == [x]
  {
    assert [x][..0] == [];
  }
}
