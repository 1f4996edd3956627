/** What a namespace-aware reader sees in a document, and how much of it the canonical bytes
    fix: not the default namespace of unprefixed elements; and more than it, where attributes
    tie or `xml` is declared. */
module C14nInfoset {
  import opened Basics
  import opened XmlModel
  import opened Ordering
  import opened C14nSpec
  import opened C14nTheorems
  import opened C14nVariants
  import opened C14nDocuments

  // ------------------------------------------------------------------- the infoset

  /** An information item. Attributes have no order, an unprefixed attribute has no namespace,
      an unprefixed element has the default one. */
  datatype Node =
    | Element(prefix: string, local: string, uri: string, attrs: multiset<AttrItem>)
    | ElementEnd(prefix: string, local: string)
    | Characters(text: string)
    | RemarkNode(body: string)
    | InstructionNode(body: string)

  function AttrNode(scope: Scope, a: Attr): AttrItem {
    var q := SplitQName(a.key);
    AttrItem(if q.prefix == "" then "" else NamespaceOf(scope, q.prefix), q.local, q.prefix, a.value)
  }

  function AttrNodes(scope: Scope, attrs: seq<Attr>): multiset<AttrItem> {
    if attrs == [] then multiset{}
    else
      var rest, a := AttrNodes(scope, attrs[..|attrs| - 1]), attrs[|attrs| - 1];
      if IsDecl(a.key) then rest else rest + multiset{AttrNode(scope, a)}
  }

  function ElementNode(name: string, attrs: seq<Attr>, scope: Scope): Node {
    var q := SplitQName(name);
    Element(q.prefix, q.local, NamespaceOf(scope, q.prefix), AttrNodes(scope, attrs))
  }

  function EndNode(name: string): Node {
    var q := SplitQName(name);
    ElementEnd(q.prefix, q.local)
  }

  function NodesOf(e: Event, scopes: seq<Scope>, withComments: bool): seq<Node> {
    match e
    case Start(name, attrs) => [ElementNode(name, attrs, Extend(Top(scopes), attrs))]
    case Empty(name, attrs) => [ElementNode(name, attrs, Extend(Top(scopes), attrs)), EndNode(name)]
    case End(name) => [EndNode(name)]
    case Text(text) => [Characters(text)]
    case CData(text) => [Characters(text)]
    case Comment(body) => if withComments then [RemarkNode(body)] else []
    case PI(body) => [InstructionNode(body)]
    case Decl => []
    case DocType => []
  }

  function Nodes(evs: seq<Event>, scopes: seq<Scope>, withComments: bool): seq<Node> {
    if evs == [] then []
    else NodesOf(evs[0], scopes, withComments) + Nodes(evs[1..], ScopesAfter(evs[0], scopes), withComments)
  }

  function JoinNode(n: Node, rest: seq<Node>): seq<Node> {
    if !n.Characters? then [n] + rest
    else if n.text == "" then rest
    else if rest != [] && rest[0].Characters? then [Characters(n.text + rest[0].text)] + rest[1..]
    else [n] + rest
  }

  /** Adjacent characters joined, empty ones dropped. */
  function JoinNodes(nodes: seq<Node>): seq<Node> {
    if nodes == [] then [] else JoinNode(nodes[0], JoinNodes(nodes[1..]))
  }

  /** What a document says, with prefixes (which canonical forms keep). */
  function Infoset(evs: seq<Event>, withComments: bool): seq<Node> {
    JoinNodes(Nodes(evs, BARE, withComments))
  }

  // ------------------------------------------------------ from resolved items to nodes

  function MeantAttr(x: AttrItem): AttrItem {
    x.(uri := Meant(x.prefix, x.uri))
  }

  function MeantAttrs(attrs: seq<AttrItem>): multiset<AttrItem> {
    if attrs == [] then multiset{}
    else MeantAttrs(attrs[..|attrs| - 1]) + multiset{MeantAttr(attrs[|attrs| - 1])}
  }

  /** The node a resolved item stands for, if its element is in no default namespace. */
  function NodeOf(it: Item): Node {
    match it
    case Open(prefix, local, uri, attrs) => Element(prefix, local, Meant(prefix, uri), MeantAttrs(attrs))
    case Close(prefix, local) => ElementEnd(prefix, local)
    case Chars(text) => Characters(text)
    case Remark(body) => RemarkNode(body)
    case Instruction(body) => InstructionNode(body)
  }

  function NodesFrom(items: seq<Item>): seq<Node> {
    if items == [] then [] else [NodeOf(items[0])] + NodesFrom(items[1..])
  }

  lemma {:induction false} NodesFromConcat(a: seq<Item>, b: seq<Item>)
    ensures NodesFrom(a + b) == NodesFrom(a) + NodesFrom(b)
  {
    if a == [] {
      assert a + b == b;
    } else {
      assert (a + b)[1..] == a[1..] + b;
      NodesFromConcat(a[1..], b);
      Assoc([NodeOf(a[0])], NodesFrom(a[1..]), NodesFrom(b));
    }
  }

  lemma {:induction false} AttrNodesAre(scope: Scope, attrs: seq<Attr>)
    ensures AttrNodes(scope, attrs) == MeantAttrs(ResolveAttrs(scope, attrs))
  {
    if attrs != [] {
      var n := |attrs| - 1;
      AttrNodesAre(scope, attrs[..n]);
      if !IsDecl(attrs[n].key) {
        var r, x := ResolveAttrs(scope, attrs[..n]), ResolveAttr(scope, attrs[n]);
        assert (r + [x])[..|r|] == r;
      }
    }
  }

  lemma {:induction false} NodesOfAre(e: Event, scopes: seq<Scope>, wc: bool)
    requires NotInDefault(e, scopes)
    ensures NodesOf(e, scopes, wc) == NodesFrom(ItemsOf(e, scopes, wc))
  {
    var here := ItemsOf(e, scopes, wc);
    if e.Start? || e.Empty? {
      AttrNodesAre(Extend(Top(scopes), e.attrs), e.attrs);
      assert here[1..] == if e.Empty? then [CloseItem(e.name)] else [];
      assert e.Empty? ==> here[1..][1..] == [];
    } else if here != [] {
      assert here[1..] == [];
    }
  }

  lemma {:induction false} NodesAre(evs: seq<Event>, scopes: seq<Scope>, wc: bool)
    requires DefaultFree(evs, scopes)
    ensures Nodes(evs, scopes, wc) == NodesFrom(Resolve(evs, scopes, wc))
  {
    if evs != [] {
      var here, scopes' := ItemsOf(evs[0], scopes, wc), ScopesAfter(evs[0], scopes);
      NodesOfAre(evs[0], scopes, wc);
      NodesAre(evs[1..], scopes', wc);
      NodesFromConcat(here, Resolve(evs[1..], scopes', wc));
    }
  }

  lemma {:induction false} JoinNodeIs(it: Item, rest: seq<Item>)
    ensures NodesFrom(JoinOne(it, rest)) == JoinNode(NodeOf(it), NodesFrom(rest))
  {
    if it.Chars? && it.text != "" && rest != [] && rest[0].Chars? {
      NodesFromConcat([Chars(it.text + rest[0].text)], rest[1..]);
    } else {
      NodesFromConcat([it], rest);
    }
    assert [it][1..] == [];
  }

  lemma {:induction false} JoinNodesAre(items: seq<Item>)
    ensures NodesFrom(JoinText(items)) == JoinNodes(NodesFrom(items))
  {
    if items != [] {
      JoinNodesAre(items[1..]);
      JoinNodeIs(items[0], JoinText(items[1..]));
      assert NodesFrom(items)[1..] == NodesFrom(items[1..]);
    }
  }

  lemma {:induction false} MeantSnoc(attrs: seq<AttrItem>, x: AttrItem)
    ensures MeantAttrs(attrs + [x]) == MeantAttrs(attrs) + multiset{MeantAttr(x)}
  {
    assert (attrs + [x])[..|attrs|] == attrs;
  }

  lemma {:induction false} MeantConcat(a: seq<AttrItem>, b: seq<AttrItem>)
    ensures MeantAttrs(a + b) == MeantAttrs(a) + MeantAttrs(b)
  {
    if b == [] {
      assert a + b == a;
    } else {
      var n := |b| - 1;
      assert a + b == a + b[..n] + [b[n]];
      MeantSnoc(a + b[..n], b[n]);
      MeantConcat(a, b[..n]);
    }
  }

  lemma {:induction false} MeantPermuted(a: seq<AttrItem>, b: seq<AttrItem>)
    requires multiset(a) == multiset(b)
    ensures MeantAttrs(a) == MeantAttrs(b)
  {
    if a == [] {
      assert |multiset(b)| == 0;
    } else {
      var u, v := WithoutLast(a, b);
      var x := a[|a| - 1];
      MeantPermuted(a[..|a| - 1], u + v);
      MeantConcat(u, v);
      MeantConcat(u + [x], v);
      MeantSnoc(u, x);
    }
  }

  lemma {:induction false} NodesSorted(items: seq<Item>)
    ensures NodesFrom(SortItems(items)) == NodesFrom(items)
  {
    if items != [] {
      assert SortItems(items)[1..] == SortItems(items[1..]);
      NodesSorted(items[1..]);
      if items[0].Open? {
        SortedAttrs(items[0].attrs);
        MeantPermuted(SortItem(items[0]).attrs, items[0].attrs);
      }
    }
  }

  /** Where no unprefixed element lies in a default namespace, the resolved items tell the
      infoset. */
  lemma {:induction false} InfosetOfItems(evs: seq<Event>, wc: bool)
    requires DefaultFree(evs, BARE)
    ensures Infoset(evs, wc) == NodesFrom(ResolvedItems(evs, wc))
  {
    NodesAre(evs, BARE, wc);
    JoinNodesAre(Resolve(evs, BARE, wc));
    NodesSorted(JoinText(Resolve(evs, BARE, wc)));
  }

  // ----------------------------------------------------- from nodes to resolved items

  /** Prefix `xml` as the code resolves it when nobody declares it. */
  predicate PlainAttr(x: AttrItem) {
    x.prefix == "xml" ==> x.uri == ""
  }

  predicate PlainAttrList(attrs: seq<AttrItem>) {
    forall i :: 0 <= i < |attrs| ==> PlainAttr(attrs[i])
  }

  predicate XmlPlain(it: Item) {
    it.Open? ==> (it.prefix == "xml" ==> it.uri == "") && PlainAttrList(it.attrs)
  }

  lemma {:induction false} MeantInjective(x: AttrItem, y: AttrItem)
    requires PlainAttr(x) && PlainAttr(y)
    ensures MeantAttr(x) == MeantAttr(y) <==> x == y
  {}

  lemma {:induction false} CountSnoc(attrs: seq<AttrItem>, last: AttrItem, x: AttrItem)
    requires PlainAttr(last) && PlainAttr(x)
    ensures MeantAttrs(attrs + [last])[MeantAttr(x)] == MeantAttrs(attrs)[MeantAttr(x)] + (if last == x then 1 else 0)
    ensures multiset(attrs + [last])[x] == multiset(attrs)[x] + (if last == x then 1 else 0)
  {
    MeantSnoc(attrs, last);
    MeantInjective(last, x);
  }

  lemma {:induction false} MeantCounts(attrs: seq<AttrItem>, x: AttrItem)
    requires PlainAttrList(attrs) && PlainAttr(x)
    ensures MeantAttrs(attrs)[MeantAttr(x)] == multiset(attrs)[x]
  {
    if attrs != [] {
      var init, last := attrs[..|attrs| - 1], attrs[|attrs| - 1];
      MeantCounts(init, x);
      CountSnoc(init, last, x);
      assert attrs == init + [last];
    }
  }

  lemma {:induction false} SameAttrs(a: seq<AttrItem>, b: seq<AttrItem>)
    requires PlainAttrList(a) && PlainAttrList(b)
    requires MeantAttrs(a) == MeantAttrs(b)
    ensures multiset(a) == multiset(b)
  {
    forall x ensures multiset(a)[x] == multiset(b)[x] {
      if PlainAttr(x) {
        MeantCounts(a, x);
        MeantCounts(b, x);
      } else {
        assert x !in a && x !in b;
      }
    }
  }

  /** What the other half needs of an item: attributes in order, no ties, `xml` undeclared. */
  ghost predicate Regular(it: Item) {
    XmlPlain(it) && (it.Open? ==> Untied(it.attrs) && Sort(AttrLe, it.attrs) == it.attrs)
  }

  lemma {:induction false} SameItem(a: Item, b: Item)
    requires Regular(a) && Regular(b) && NodeOf(a) == NodeOf(b)
    ensures a == b
  {
    if a.Open? {
      SameAttrs(a.attrs, b.attrs);
      SortedSame(a.attrs, b.attrs);
    }
  }

  lemma {:induction false} SameItems(a: seq<Item>, b: seq<Item>)
    requires (forall it :: it in a ==> Regular(it)) && (forall it :: it in b ==> Regular(it))
    requires NodesFrom(a) == NodesFrom(b)
    ensures a == b
  {
    if a != [] && b != [] {
      assert NodesFrom(a)[0] == NodesFrom(b)[0];
      assert NodesFrom(a)[1..] == NodesFrom(a[1..]) && NodesFrom(b)[1..] == NodesFrom(b[1..]);
      SameItem(a[0], b[0]);
      SameItems(a[1..], b[1..]);
      assert a == [a[0]] + a[1..] && b == [b[0]] + b[1..];
    }
  }

  /** Nobody declares the prefix `xml` (Namespaces in XML binds it without). */
  ghost predicate XmlUndeclared(evs: seq<Event>) {
    forall e :: e in evs && (e.Start? || e.Empty?) ==> forall a :: a in e.attrs ==> a.key != "xmlns:xml"
  }

  /** No element has two different attributes with the same local name and resolved URI. */
  ghost predicate TieFree(evs: seq<Event>, wc: bool) {
    forall it :: it in Resolve(evs, BARE, wc) && it.Open? ==> Untied(it.attrs)
  }

  ghost predicate NoXml(scopes: seq<Scope>) {
    forall i :: 0 <= i < |scopes| ==> "xml" !in scopes[i]
  }

  lemma {:induction false} DeclaresXml(key: string)
    requires IsDecl(key) && DeclPrefix(key) == "xml"
    ensures key == "xmlns:xml"
  {
    assert key == key[..6] + key[6..];
  }

  lemma {:induction false} ExtendNoXml(scope: Scope, attrs: seq<Attr>)
    requires "xml" !in scope && forall a :: a in attrs ==> a.key != "xmlns:xml"
    ensures "xml" !in Extend(scope, attrs)
  {
    if attrs != [] {
      var a := attrs[|attrs| - 1];
      assert a in attrs;
      ExtendNoXml(scope, attrs[..|attrs| - 1]);
      if IsDecl(a.key) && DeclPrefix(a.key) == "xml" { DeclaresXml(a.key); }
    }
  }

  lemma {:induction false} ResolveAttrsPlain(scope: Scope, attrs: seq<Attr>)
    requires "xml" !in scope
    ensures PlainAttrList(ResolveAttrs(scope, attrs))
  {
    if attrs != [] { ResolveAttrsPlain(scope, attrs[..|attrs| - 1]); }
  }

  lemma {:induction false} ResolvePlainXml(evs: seq<Event>, scopes: seq<Scope>, wc: bool)
    requires XmlUndeclared(evs) && NoXml(scopes)
    ensures forall it :: it in Resolve(evs, scopes, wc) ==> XmlPlain(it)
  {
    if evs != [] {
      var e := evs[0];
      assert e in evs;
      if e.Start? || e.Empty? {
        ExtendNoXml(Top(scopes), e.attrs);
        ResolveAttrsPlain(Extend(Top(scopes), e.attrs), e.attrs);
      }
      ResolvePlainXml(evs[1..], ScopesAfter(e, scopes), wc);
      forall it | it in ItemsOf(e, scopes, wc) ensures XmlPlain(it) {}
    }
  }

  lemma {:induction false} JoinTextOpens(items: seq<Item>)
    ensures forall it :: it in JoinText(items) && it.Open? ==> it in items
    ensures forall it :: it in items && it.Open? ==> it in JoinText(items)
  {
    if items != [] {
      JoinTextOpens(items[1..]);
      var rest := JoinText(items[1..]);
      if rest != [] { assert rest == [rest[0]] + rest[1..]; }
    }
  }

  lemma {:induction false} SortedRegular(it: Item)
    requires XmlPlain(it) && (it.Open? ==> Untied(it.attrs))
    ensures Regular(SortItem(it))
  {
    if it.Open? {
      SortedAttrs(it.attrs);
      forall i | 0 <= i < |SortItem(it).attrs| ensures SortItem(it).attrs[i] in it.attrs {}
      AttrOrder();
      SortSorts(AttrLe, it.attrs);
      SortOfSorted(AttrLe, Sort(AttrLe, it.attrs));
    }
  }

  lemma {:induction false} ResolvedRegular(evs: seq<Event>, wc: bool)
    requires XmlUndeclared(evs) && TieFree(evs, wc)
    ensures forall it :: it in ResolvedItems(evs, wc) ==> Regular(it)
  {
    var items := JoinText(Resolve(evs, BARE, wc));
    ResolvePlainXml(evs, BARE, wc);
    JoinTextOpens(Resolve(evs, BARE, wc));
    SortItemsIndexed(items);
    forall it | it in SortItems(items) ensures Regular(it) {
      var i :| 0 <= i < |items| && SortItems(items)[i] == it;
      assert items[i] in items;
      SortedRegular(items[i]);
    }
  }

  // -------------------------------------------------------------------- theorems

  /** Outside default namespaces, the same bytes mean the same infoset. */
  lemma {:induction false} SameBytesSameInfoset(a: seq<Event>, b: seq<Event>, wc: bool)
    requires Parsed(a) && Parsed(b) && DefaultFree(a, BARE) && DefaultFree(b, BARE)
    requires Canonical(a, wc) == Canonical(b, wc)
    ensures Infoset(a, wc) == Infoset(b, wc)
  {
    SameBytesIffSameItems(a, b, wc);
    InfosetOfItems(a, wc);
    InfosetOfItems(b, wc);
  }

  /** Two documents have the same canonical bytes exactly when they have the same infoset, if
      no unprefixed element lies in a default namespace, no attributes tie and `xml` is not
      declared. */
  lemma {:induction false} SameBytesIffSameInfoset(a: seq<Event>, b: seq<Event>, wc: bool)
    requires Parsed(a) && Parsed(b) && DefaultFree(a, BARE) && DefaultFree(b, BARE)
    requires XmlUndeclared(a) && XmlUndeclared(b) && TieFree(a, wc) && TieFree(b, wc)
    ensures Canonical(a, wc) == Canonical(b, wc) <==> Infoset(a, wc) == Infoset(b, wc)
  {
    SameBytesIffSameItems(a, b, wc);
    InfosetOfItems(a, wc);
    InfosetOfItems(b, wc);
    if Infoset(a, wc) == Infoset(b, wc) {
      ResolvedRegular(a, wc);
      ResolvedRegular(b, wc);
      SameItems(ResolvedItems(a, wc), ResolvedItems(b, wc));
    }
  }

  // ----------------------------------------------------------- default namespaces

  ghost predicate Prefixed(e: Event) {
    (e.Start? || e.Empty?) ==> SplitQName(e.name).prefix != ""
  }

  /** Every element name has a prefix. */
  ghost predicate AllPrefixed(evs: seq<Event>) {
    forall e :: e in evs ==> Prefixed(e)
  }

  ghost predicate ItemsPrefixed(items: seq<Item>) {
    forall it :: it in items && it.Open? ==> it.prefix != ""
  }

  lemma {:induction false} PrefixedItems(evs: seq<Event>, scopes: seq<Scope>, wc: bool)
    ensures ItemsPrefixed(Resolve(evs, scopes, wc)) <==> AllPrefixed(evs)
  {
    if evs != [] {
      var e, scopes' := evs[0], ScopesAfter(evs[0], scopes);
      var here, rest := ItemsOf(e, scopes, wc), Resolve(evs[1..], scopes', wc);
      PrefixedItems(evs[1..], scopes', wc);
      PrefixedHere(e, scopes, wc);
      PrefixedParts(evs);
      assert ItemsPrefixed(here + rest) <==> ItemsPrefixed(here) && ItemsPrefixed(rest);
    }
  }

  lemma {:induction false} PrefixedParts(evs: seq<Event>)
    requires evs != []
    ensures AllPrefixed(evs) <==> Prefixed(evs[0]) && AllPrefixed(evs[1..])
  {
    assert evs == [evs[0]] + evs[1..];
    if Prefixed(evs[0]) && AllPrefixed(evs[1..]) {
      forall e | e in evs ensures Prefixed(e) { assert e == evs[0] || e in evs[1..]; }
    }
  }

  lemma {:induction false} PrefixedHere(e: Event, scopes: seq<Scope>, wc: bool)
    ensures ItemsPrefixed(ItemsOf(e, scopes, wc)) <==> Prefixed(e)
  {
    if e.Start? || e.Empty? {
      var here := ItemsOf(e, scopes, wc);
      assert here[0] in here;
    }
  }

  lemma {:induction false} PrefixedNormal(items: seq<Item>)
    ensures ItemsPrefixed(Normal(items)) <==> ItemsPrefixed(items)
  {
    var joined := JoinText(items);
    JoinTextOpens(items);
    SortItemsIndexed(joined);
    assert ItemsPrefixed(SortItems(joined)) <==> ItemsPrefixed(joined) by {
      forall i | 0 <= i < |joined| ensures SortItems(joined)[i] in SortItems(joined) && joined[i] in joined {}
      if ItemsPrefixed(joined) {
        forall it | it in SortItems(joined) && it.Open? ensures it.prefix != "" {
          var i :| 0 <= i < |joined| && SortItems(joined)[i] == it;
        }
      }
      if ItemsPrefixed(SortItems(joined)) {
        forall it | it in joined && it.Open? ensures it.prefix != "" {
          var i :| 0 <= i < |joined| && joined[i] == it;
        }
      }
    }
  }

  lemma {:induction false} PrefixedDefaultFree(evs: seq<Event>, scopes: seq<Scope>)
    requires AllPrefixed(evs)
    ensures DefaultFree(evs, scopes)
  {
    if evs != [] {
      PrefixedParts(evs);
      PrefixedDefaultFree(evs[1..], ScopesAfter(evs[0], scopes));
    }
  }

  /** Without the declaration of the default namespace. */
  function WithoutDefault(attrs: seq<Attr>): seq<Attr> {
    if attrs == [] then []
    else
      var rest, a := WithoutDefault(attrs[..|attrs| - 1]), attrs[|attrs| - 1];
      if a.key == "xmlns" then rest else rest + [a]
  }

  /** The same document with every element declaring this default namespace. */
  function DefaultedAttrs(attrs: seq<Attr>, uri: string): seq<Attr> {
    WithoutDefault(attrs) + [Attr("xmlns", uri)]
  }

  function Defaulted(e: Event, uri: string): Event {
    match e
    case Start(name, attrs) => Start(name, DefaultedAttrs(attrs, uri))
    case Empty(name, attrs) => Empty(name, DefaultedAttrs(attrs, uri))
    case _ => e
  }

  function AllDefaulted(evs: seq<Event>, uri: string): seq<Event> {
    seq(|evs|, i requires 0 <= i < |evs| => Defaulted(evs[i], uri))
  }

  /** Scopes that differ in the default namespace only. */
  ghost predicate AgreePrefixed(a: Scope, b: Scope) {
    a - {""} == b - {""}
  }

  ghost predicate AgreeAll(a: seq<Scope>, b: seq<Scope>) {
    |a| == |b| && forall i :: 0 <= i < |a| ==> AgreePrefixed(a[i], b[i])
  }

  lemma {:induction false} UriAgrees(a: Scope, b: Scope, prefix: string)
    requires AgreePrefixed(a, b)
    ensures UriOf(a, prefix) == UriOf(b, prefix)
  {
    if prefix != "" {
      assert prefix in a <==> prefix in a - {""};
      assert prefix in b <==> prefix in b - {""};
      assert prefix in a ==> a[prefix] == (a - {""})[prefix] == (b - {""})[prefix];
    }
  }

  lemma {:induction false} PutAgrees(a: Scope, b: Scope, p: string, u: string)
    requires AgreePrefixed(a, b)
    ensures AgreePrefixed(a[p := u], b[p := u])
    ensures AgreePrefixed(a["" := u], b) && AgreePrefixed(a, b["" := u])
  {
    assert a["" := u] - {""} == a - {""} && b["" := u] - {""} == b - {""};
    if p != "" {
      assert a[p := u] - {""} == (a - {""})[p := u] && b[p := u] - {""} == (b - {""})[p := u];
    } else {
      assert a[p := u] - {""} == a - {""} && b[p := u] - {""} == b - {""};
    }
  }

  lemma {:induction false} ExtendWithout(a: Scope, b: Scope, attrs: seq<Attr>)
    requires AgreePrefixed(a, b)
    ensures AgreePrefixed(Extend(a, attrs), Extend(b, WithoutDefault(attrs)))
  {
    if attrs != [] {
      var n := |attrs| - 1;
      var x, rest := attrs[n], WithoutDefault(attrs[..n]);
      ExtendWithout(a, b, attrs[..n]);
      var ea, eb := Extend(a, attrs[..n]), Extend(b, rest);
      if IsDecl(x.key) { PutAgrees(ea, eb, DeclPrefix(x.key), x.value); }
      if x.key != "xmlns" { ExtendSnoc(b, rest, x.key, x.value); assert rest + [x] == rest + [Attr(x.key, x.value)]; }
    }
  }

  lemma {:induction false} ExtendDefaulted(a: Scope, b: Scope, attrs: seq<Attr>, uri: string)
    requires AgreePrefixed(a, b)
    ensures AgreePrefixed(Extend(a, attrs), Extend(b, DefaultedAttrs(attrs, uri)))
    ensures Lookup(Extend(b, DefaultedAttrs(attrs, uri)), "") == uri
  {
    ExtendWithout(a, b, attrs);
    ExtendSnoc(b, WithoutDefault(attrs), "xmlns", uri);
    PutAgrees(Extend(a, attrs), Extend(b, WithoutDefault(attrs)), "", uri);
  }

  lemma {:induction false} ResolveWithout(a: Scope, b: Scope, attrs: seq<Attr>)
    requires AgreePrefixed(a, b)
    ensures ResolveAttrs(a, attrs) == ResolveAttrs(b, WithoutDefault(attrs))
  {
    if attrs != [] {
      var n := |attrs| - 1;
      ResolveWithout(a, b, attrs[..n]);
      UriAgrees(a, b, SplitQName(attrs[n].key).prefix);
      if attrs[n].key != "xmlns" { ResolveSnoc(b, WithoutDefault(attrs[..n]), attrs[n]); }
    }
  }

  /** The code resolves an element alike whatever its default namespace. */
  lemma {:induction false} OpenDefaulted(name: string, attrs: seq<Attr>, a: Scope, b: Scope, uri: string)
    requires AgreePrefixed(a, b)
    ensures OpenItem(name, attrs, Extend(a, attrs))
            == OpenItem(name, DefaultedAttrs(attrs, uri), Extend(b, DefaultedAttrs(attrs, uri)))
  {
    var ea, eb := Extend(a, attrs), Extend(b, DefaultedAttrs(attrs, uri));
    ExtendDefaulted(a, b, attrs, uri);
    ResolveWithout(ea, eb, attrs);
    ResolveSnoc(eb, WithoutDefault(attrs), Attr("xmlns", uri));
    UriAgrees(ea, eb, SplitQName(name).prefix);
  }

  lemma {:induction false} TopAgrees(a: seq<Scope>, b: seq<Scope>)
    requires AgreeAll(a, b)
    ensures AgreePrefixed(Top(a), Top(b)) && AgreeAll(Pop(a), Pop(b))
  {}

  lemma {:induction false} StepDefaulted(e: Event, a: seq<Scope>, b: seq<Scope>, uri: string, wc: bool)
    requires AgreeAll(a, b)
    ensures ItemsOf(e, a, wc) == ItemsOf(Defaulted(e, uri), b, wc)
    ensures AgreeAll(ScopesAfter(e, a), ScopesAfter(Defaulted(e, uri), b))
  {
    TopAgrees(a, b);
    if e.Start? || e.Empty? {
      OpenDefaulted(e.name, e.attrs, Top(a), Top(b), uri);
      ExtendDefaulted(Top(a), Top(b), e.attrs, uri);
    }
  }

  lemma {:induction false} ResolveDefaulted(evs: seq<Event>, a: seq<Scope>, b: seq<Scope>, uri: string, wc: bool)
    requires AgreeAll(a, b)
    ensures Resolve(evs, a, wc) == Resolve(AllDefaulted(evs, uri), b, wc)
  {
    if evs != [] {
      assert AllDefaulted(evs, uri)[1..] == AllDefaulted(evs[1..], uri);
      StepDefaulted(evs[0], a, b, uri, wc);
      ResolveDefaulted(evs[1..], ScopesAfter(evs[0], a), ScopesAfter(Defaulted(evs[0], uri), b), uri, wc);
    }
  }

  /** Whatever default namespace is declared throughout, the bytes are the same. */
  lemma {:induction false} DefaultUnseen(evs: seq<Event>, uri: string, wc: bool)
    ensures Canonical(AllDefaulted(evs, uri), wc) == Canonical(evs, wc)
  {
    ResolveDefaulted(evs, BARE, BARE, uri, wc);
  }

  lemma {:induction false} WithoutDefaultIn(attrs: seq<Attr>)
    ensures forall a :: a in WithoutDefault(attrs) ==> a in attrs
  {
    if attrs != [] { WithoutDefaultIn(attrs[..|attrs| - 1]); }
  }

  lemma {:induction false} NameOkDefault()
    ensures NameOk("xmlns") && "xmlns" != ":xmlns"
  {
    assert SplitQName("xmlns").local == "xmlns" by { SplitJoin("", "xmlns"); assert Join("", "xmlns") == "xmlns"; }
  }

  lemma {:induction false} DefaultedParsed(evs: seq<Event>, uri: string)
    requires Parsed(evs)
    ensures Parsed(AllDefaulted(evs, uri))
  {
    NameOkDefault();
    var ds := AllDefaulted(evs, uri);
    forall d | d in ds ensures PlainEvent(d) && Spelled(d) && ((d.Start? || d.Empty?) ==> BindsNoEmptyUri(d.attrs)) {
      var i :| 0 <= i < |evs| && d == Defaulted(evs[i], uri);
      var e := evs[i];
      assert e in evs && PlainEvent(e) && Spelled(e);
      if e.Start? || e.Empty? { WithoutDefaultIn(e.attrs); }
    }
  }

  /** Two default namespaces show in the namespaces of unprefixed elements. */
  lemma {:induction false} DefaultShows(evs: seq<Event>, a: seq<Scope>, b: seq<Scope>, u: string, v: string)
    requires !AllPrefixed(evs) && u != v
    ensures ElementNamespaces(AllDefaulted(evs, u), a) != ElementNamespaces(AllDefaulted(evs, v), b)
  {
    var e := evs[0];
    var x, y := AllDefaulted(evs, u), AllDefaulted(evs, v);
    assert x[1..] == AllDefaulted(evs[1..], u) && y[1..] == AllDefaulted(evs[1..], v);
    var p, q := EventNamespaces(x[0], a), EventNamespaces(y[0], b);
    SplitEqual(p, ElementNamespaces(x[1..], ScopesAfter(x[0], a)), q, ElementNamespaces(y[1..], ScopesAfter(y[0], b)));
    DefaultHere(e, a, b, u, v);
    PrefixedParts(evs);
    if Prefixed(e) { DefaultShows(evs[1..], ScopesAfter(x[0], a), ScopesAfter(y[0], b), u, v); }
  }

  lemma {:induction false} DefaultHere(e: Event, a: seq<Scope>, b: seq<Scope>, u: string, v: string)
    requires u != v
    ensures var p, q := EventNamespaces(Defaulted(e, u), a), EventNamespaces(Defaulted(e, v), b);
            |p| == |q| && (p == q ==> Prefixed(e))
  {
    DefaultTaken(e, a, u);
    DefaultTaken(e, b, v);
  }

  lemma {:induction false} DefaultTaken(e: Event, a: seq<Scope>, u: string)
    ensures |EventNamespaces(Defaulted(e, u), a)| == if e.Start? || e.Empty? then 1 else 0
    ensures !Prefixed(e) ==> EventNamespaces(Defaulted(e, u), a) == [u]
  {
    if e.Start? || e.Empty? { ExtendDefaulted(Top(a), Top(a), e.attrs, u); }
  }

  // the element namespaces are part of the infoset

  function UriOfNode(n: Node): seq<string> {
    if n.Element? then [n.uri] else []
  }

  function NodeUris(nodes: seq<Node>): seq<string> {
    if nodes == [] then [] else UriOfNode(nodes[0]) + NodeUris(nodes[1..])
  }

  lemma {:induction false} NodeUrisConcat(a: seq<Node>, b: seq<Node>)
    ensures NodeUris(a + b) == NodeUris(a) + NodeUris(b)
  {
    if a == [] {
      assert a + b == b;
    } else {
      assert (a + b)[1..] == a[1..] + b;
      NodeUrisConcat(a[1..], b);
      Assoc(UriOfNode(a[0]), NodeUris(a[1..]), NodeUris(b));
    }
  }

  lemma {:induction false} NodeUrisJoined(nodes: seq<Node>)
    ensures NodeUris(JoinNodes(nodes)) == NodeUris(nodes)
  {
    if nodes != [] {
      var rest := JoinNodes(nodes[1..]);
      NodeUrisJoined(nodes[1..]);
      NodeUrisConcat([nodes[0]], rest);
      assert [nodes[0]][1..] == [];
      if rest != [] && rest[0].Characters? && nodes[0].Characters? {
        var both := [Characters(nodes[0].text + rest[0].text)];
        assert both[1..] == [];
        NodeUrisConcat(both, rest[1..]);
      }
    }
  }

  lemma {:induction false} NodeUrisAre(evs: seq<Event>, scopes: seq<Scope>, wc: bool)
    ensures NodeUris(Nodes(evs, scopes, wc)) == ElementNamespaces(evs, scopes)
  {
    if evs != [] {
      var here, rest := NodesOf(evs[0], scopes, wc), Nodes(evs[1..], ScopesAfter(evs[0], scopes), wc);
      NodeUrisConcat(here, rest);
      NodeUrisAre(evs[1..], ScopesAfter(evs[0], scopes), wc);
      assert NodeUris(here) == EventNamespaces(evs[0], scopes) by {
        if here != [] {
          assert here[1..] == if evs[0].Empty? then [EndNode(evs[0].name)] else [];
          assert evs[0].Empty? ==> here[1..][1..] == [];
        }
      }
    }
  }

  lemma {:induction false} InfosetUris(evs: seq<Event>, wc: bool)
    ensures NodeUris(Infoset(evs, wc)) == ElementNamespaces(evs, BARE)
  {
    NodeUrisJoined(Nodes(evs, BARE, wc));
    NodeUrisAre(evs, BARE, wc);
  }

  /** The bytes of `a` fix its infoset. */
  ghost predicate FixesInfoset(a: seq<Event>, wc: bool) {
    forall b :: Parsed(b) && Canonical(b, wc) == Canonical(a, wc) ==> Infoset(b, wc) == Infoset(a, wc)
  }

  /** The bytes of `a` fix the namespaces of its elements. */
  ghost predicate FixesNamespaces(a: seq<Event>, wc: bool) {
    forall b :: Parsed(b) && Canonical(b, wc) == Canonical(a, wc) ==>
      ElementNamespaces(b, BARE) == ElementNamespaces(a, BARE)
  }

  lemma {:induction false} PrefixedFixed(a: seq<Event>, b: seq<Event>, wc: bool)
    requires Parsed(a) && Parsed(b) && AllPrefixed(a) && Canonical(b, wc) == Canonical(a, wc)
    ensures Infoset(b, wc) == Infoset(a, wc)
  {
    SameBytesIffSameItems(a, b, wc);
    PrefixedItems(a, BARE, wc);
    PrefixedItems(b, BARE, wc);
    PrefixedNormal(Resolve(a, BARE, wc));
    PrefixedNormal(Resolve(b, BARE, wc));
    PrefixedDefaultFree(a, BARE);
    PrefixedDefaultFree(b, BARE);
    InfosetOfItems(a, wc);
    InfosetOfItems(b, wc);
  }

  /** Among all parsed documents with the same canonical bytes, those of `a` fix its infoset, and
      its element namespaces, exactly when every element of `a` is prefixed. Otherwise one set
      of bytes stands for documents in different namespaces. */
  lemma {:induction false} FixedExactly(a: seq<Event>, wc: bool)
    requires Parsed(a)
    ensures FixesInfoset(a, wc) <==> AllPrefixed(a)
    ensures FixesNamespaces(a, wc) <==> AllPrefixed(a)
  {
    InfosetUris(a, wc);
    if AllPrefixed(a) {
      forall b | Parsed(b) && Canonical(b, wc) == Canonical(a, wc)
        ensures Infoset(b, wc) == Infoset(a, wc) && ElementNamespaces(b, BARE) == ElementNamespaces(a, BARE)
      {
        PrefixedFixed(a, b, wc);
        InfosetUris(b, wc);
      }
    } else {
      var u, v := AllDefaulted(a, "u"), AllDefaulted(a, "v");
      DefaultedParsed(a, "u");
      DefaultedParsed(a, "v");
      DefaultUnseen(a, "u", wc);
      DefaultUnseen(a, "v", wc);
      DefaultShows(a, BARE, BARE, "u", "v");
      InfosetUris(u, wc);
      InfosetUris(v, wc);
    }
  }
}
