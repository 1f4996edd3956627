/** What exclusive canonicalisation means: events are resolved against the namespace
    scopes (first stack), then written out with the declarations that the rendered
    bindings (second stack) still lack. */
module C14nSpec {
  import opened XmlModel
  import opened Ordering

  /** Prefix to URI. */
  type Scope = map<string, string>

  function Lookup(scope: Scope, prefix: string): string {
    if prefix in scope then scope[prefix] else ""
  }

  function Top(stack: seq<Scope>): Scope {
    if stack == [] then map[] else stack[|stack| - 1]
  }

  function Pop(stack: seq<Scope>): seq<Scope> {
    if stack == [] then [] else stack[..|stack| - 1]
  }

  // ---------------------------------------------------------------- resolving

  datatype AttrItem = AttrItem(uri: string, local: string, prefix: string, value: string)

  /** An event as the code resolves it; an unprefixed name has the URI "". */
  datatype Item =
    | Open(prefix: string, local: string, uri: string, attrs: seq<AttrItem>)
    | Close(prefix: string, local: string)
    | Chars(text: string)
    | Remark(body: string)
    | Instruction(body: string)

  /** The scope of an element: its parent's, overridden by its own declarations. */
  function Extend(scope: Scope, attrs: seq<Attr>): Scope {
    if attrs == [] then scope
    else
      var rest, a := Extend(scope, attrs[..|attrs| - 1]), attrs[|attrs| - 1];
      if IsDecl(a.key) then rest[DeclPrefix(a.key) := a.value] else rest
  }

  /** The URI the code resolves a prefix to. An unprefixed element gets none, whatever the
      default namespace; and the prefix `xml`, which Namespaces in XML binds by definition, gets
      one only where it is declared. So `xml:lang` sorts among the unqualified attributes, where
      section 3 of RFC 3741 sorts it by its namespace. */
  function UriOf(scope: Scope, prefix: string): string {
    if prefix == "" then "" else Lookup(scope, prefix)
  }

  function ResolveAttr(scope: Scope, a: Attr): AttrItem {
    var q := SplitQName(a.key);
    AttrItem(UriOf(scope, q.prefix), q.local, q.prefix, a.value)
  }

  function ResolveAttrs(scope: Scope, attrs: seq<Attr>): seq<AttrItem> {
    if attrs == [] then []
    else
      var rest, a := ResolveAttrs(scope, attrs[..|attrs| - 1]), attrs[|attrs| - 1];
      if IsDecl(a.key) then rest else rest + [ResolveAttr(scope, a)]
  }

  function OpenItem(name: string, attrs: seq<Attr>, scope: Scope): Item {
    var q := SplitQName(name);
    Open(q.prefix, q.local, UriOf(scope, q.prefix), ResolveAttrs(scope, attrs))
  }

  function CloseItem(name: string): Item {
    var q := SplitQName(name);
    Close(q.prefix, q.local)
  }

  /** What one event contributes. */
  function ItemsOf(e: Event, scopes: seq<Scope>, withComments: bool): seq<Item> {
    match e
    case Start(name, attrs) => [OpenItem(name, attrs, Extend(Top(scopes), attrs))]
    case Empty(name, attrs) => [OpenItem(name, attrs, Extend(Top(scopes), attrs)), CloseItem(name)]
    case End(name) => [CloseItem(name)]
    case Text(text) => [Chars(text)]
    case CData(text) => [Chars(text)]
    case Comment(body) => if withComments then [Remark(body)] else []
    case PI(body) => [Instruction(body)]
    case Decl => []
    case DocType => []
  }

  /** How one event moves the scope stack. */
  function ScopesAfter(e: Event, scopes: seq<Scope>): seq<Scope> {
    match e
    case Start(name, attrs) => scopes + [Extend(Top(scopes), attrs)]
    case End(_) => Pop(scopes)
    case _ => scopes
  }

  function Resolve(evs: seq<Event>, scopes: seq<Scope>, withComments: bool): seq<Item> {
    if evs == [] then []
    else ItemsOf(evs[0], scopes, withComments)
         + Resolve(evs[1..], ScopesAfter(evs[0], scopes), withComments)
  }

  // ----------------------------------------------------------------- emitting

  datatype Binding = Binding(prefix: string, uri: string)

  datatype Token =
    | OpenTag(prefix: string, local: string, decls: seq<Binding>, attrs: seq<AttrItem>)
    | CloseTag(prefix: string, local: string)
    | TextRun(text: string)
    | CommentNode(body: string)
    | PINode(body: string)

  /** The prefixes an element visibly uses, each with the URI it stands for. */
  function Bindings(prefix: string, uri: string, attrs: seq<AttrItem>): Scope {
    if attrs == [] then (if prefix == "" then map[] else map[prefix := uri])
    else
      var rest, a := Bindings(prefix, uri, attrs[..|attrs| - 1]), attrs[|attrs| - 1];
      if a.prefix == "" then rest else rest[a.prefix := a.uri]
  }

  /** The used bindings that no ancestor has rendered with this very URI. */
  function Missing(used: Scope, rendered: Scope): Scope {
    map p | p in used && used[p] != "" && !(p in rendered && rendered[p] == used[p]) :: used[p]
  }

  predicate BindingLe(a: Binding, b: Binding) { StrLe(a.prefix, b.prefix) }

  /** By namespace URI, then by local name. */
  predicate AttrLe(a: AttrItem, b: AttrItem) {
    if a.uri == b.uri then StrLe(a.local, b.local) else StrLe(a.uri, b.uri)
  }

  lemma {:induction false} BindingOrder()
    ensures Preorder(BindingLe)
  {
    forall a, b ensures BindingLe(a, b) || BindingLe(b, a) { StrLeTotal(a.prefix, b.prefix); }
    forall a, b, c | BindingLe(a, b) && BindingLe(b, c) ensures BindingLe(a, c) {
      StrLeTransitive(a.prefix, b.prefix, c.prefix);
    }
  }

  lemma {:induction false} AttrOrder()
    ensures Preorder(AttrLe)
  {
    forall a, b ensures AttrLe(a, b) || AttrLe(b, a) {
      StrLeTotal(a.local, b.local);
      StrLeTotal(a.uri, b.uri);
    }
    forall a, b, c | AttrLe(a, b) && AttrLe(b, c) ensures AttrLe(a, c) { AttrLeTransitive(a, b, c); }
  }

  lemma {:induction false} AttrLeTransitive(a: AttrItem, b: AttrItem, c: AttrItem)
    requires AttrLe(a, b) && AttrLe(b, c)
    ensures AttrLe(a, c)
  {
    if a.uri == b.uri == c.uri {
      StrLeTransitive(a.local, b.local, c.local);
    } else if a.uri != b.uri && b.uri != c.uri {
      StrLeTransitive(a.uri, b.uri, c.uri);
      if a.uri == c.uri { StrLeAntisymmetric(a.uri, b.uri); }
    }
  }

  /** One entry a prefix. */
  ghost predicate Distinct(bs: seq<Binding>) {
    forall i, j :: 0 <= i < j < |bs| ==> bs[i].prefix != bs[j].prefix
  }

  /** `ds` lists exactly the bindings of `m`. */
  ghost predicate Lists(ds: seq<Binding>, m: Scope) {
    && Distinct(ds)
    && (forall i :: 0 <= i < |ds| ==> ds[i].prefix in m && m[ds[i].prefix] == ds[i].uri)
    && (forall p :: p in m ==> Binding(p, m[p]) in ds)
  }

  /** The bindings of `m`, ordered by prefix. */
  ghost function InOrder(m: Scope): (ds: seq<Binding>)
    ensures Lists(ds, m) && Sorted(BindingLe, ds)
  {
    Enumerable(m);
    var ds :| Lists(ds, m) && Sorted(BindingLe, ds);
    ds
  }

  lemma {:induction false} Enumerable(m: Scope)
    ensures exists ds :: Lists(ds, m) && Sorted(BindingLe, ds)
    decreases |m|
  {
    if m == map[] {
      assert Lists([], m) && Sorted(BindingLe, []);
    } else {
      var p :| p in m;
      Enumerable(m - {p});
      var ds :| Lists(ds, m - {p}) && Sorted(BindingLe, ds);
      var r := ListingWith(ds, m, p);
    }
  }

  lemma {:induction false} ListingWith(ds: seq<Binding>, m: Scope, p: string) returns (r: seq<Binding>)
    requires p in m && Lists(ds, m - {p}) && Sorted(BindingLe, ds)
    ensures Lists(r, m) && Sorted(BindingLe, r)
  {
    var x := Binding(p, m[p]);
    r := Insert(BindingLe, ds, x);
    assert Sorted(BindingLe, r) by {
      BindingOrder();
      InsertSorted(BindingLe, ds, x);
    }
    InsertKeepsElements(BindingLe, ds, x);
    assert Lists(ds + [x], m) by {
      assert (ds + [x])[|ds|] == x;
      forall q | q in m ensures Binding(q, m[q]) in ds + [x] {
        assert q == p || q in m - {p};
      }
    }
    ListsPermuted(ds + [x], r, m);
  }

  lemma {:induction false} ListsPermuted(a: seq<Binding>, b: seq<Binding>, m: Scope)
    requires Lists(a, m) && multiset(a) == multiset(b)
    ensures Lists(b, m)
  {
    forall i, j | 0 <= i < j < |b| ensures b[i].prefix != b[j].prefix {
      if b[i].prefix == b[j].prefix {
        assert b[i] in multiset(a) && b[j] in multiset(a);
        assert b[i] in a && b[j] in a;
        TwiceIn(b, i, j);
        OnceIn(a, b[i]);
        assert false;
      }
    }
    forall i | 0 <= i < |b| ensures b[i].prefix in m && m[b[i].prefix] == b[i].uri {
      assert b[i] in multiset(a);
      assert b[i] in a;
    }
    forall p | p in m ensures Binding(p, m[p]) in b {
      assert Binding(p, m[p]) in multiset(b);
    }
  }

  lemma {:induction false} TwiceIn<T>(s: seq<T>, i: nat, j: nat)
    requires i < j < |s| && s[i] == s[j]
    ensures multiset(s)[s[i]] >= 2
  {
    assert s == s[..j] + [s[j]] + s[j + 1..];
    assert s[i] in s[..j];
    assert s[i] in multiset(s[..j]);
  }

  lemma {:induction false} OnceIn<T>(s: seq<T>, x: T)
    requires forall i, j :: 0 <= i < j < |s| ==> s[i] != s[j]
    ensures multiset(s)[x] <= 1
  {
    if s != [] {
      var n := |s| - 1;
      assert s == s[..n] + [s[n]];
      OnceIn(s[..n], x);
      if s[n] == x { assert x !in s[..n]; assert x !in multiset(s[..n]); }
    }
  }

  /** A sorted listing of `m` is the only one. */
  lemma {:induction false} InOrderUnique(ds: seq<Binding>, m: Scope)
    requires Lists(ds, m) && Sorted(BindingLe, ds)
    ensures ds == InOrder(m)
  {
    var es := InOrder(m);
    forall x ensures multiset(ds)[x] == multiset(es)[x] {
      OnceIn(ds, x);
      OnceIn(es, x);
      assert x in ds <==> x in es;
      assert x in multiset(ds) <==> x in multiset(es);
    }
    assert multiset(ds) == multiset(es);
    forall i, j | 0 <= i < j < |ds| ensures !(BindingLe(ds[i], ds[j]) && BindingLe(ds[j], ds[i])) {
      if BindingLe(ds[i], ds[j]) && BindingLe(ds[j], ds[i]) {
        StrLeAntisymmetric(ds[i].prefix, ds[j].prefix);
      }
    }
    SortedUnique(BindingLe, ds, es);
  }

  ghost function TokenOf(it: Item, rendered: Scope): Token {
    match it
    case Open(prefix, local, uri, attrs) =>
      OpenTag(prefix, local, InOrder(Missing(Bindings(prefix, uri, attrs), rendered)), Sort(AttrLe, attrs))
    case Close(prefix, local) => CloseTag(prefix, local)
    case Chars(text) => TextRun(text)
    case Remark(body) => CommentNode(body)
    case Instruction(body) => PINode(body)
  }

  function RenderedAfter(it: Item, rendered: seq<Scope>): seq<Scope> {
    match it
    case Open(prefix, local, uri, attrs) =>
      rendered + [Top(rendered) + Missing(Bindings(prefix, uri, attrs), Top(rendered))]
    case Close(_, _) => Pop(rendered)
    case _ => rendered
  }

  ghost function Emit(items: seq<Item>, rendered: seq<Scope>): seq<Token> {
    if items == [] then []
    else [TokenOf(items[0], Top(rendered))] + Emit(items[1..], RenderedAfter(items[0], rendered))
  }

  // -------------------------------------------------------------- serialising

  function EscapeTextChar(c: char): string {
    match c
    case '&' => "&amp;"
    case '<' => "&lt;"
    case '>' => "&gt;"
    case '\r' => "&#xD;"
    case _ => [c]
  }

  function EscapeAttrChar(c: char): string {
    match c
    case '&' => "&amp;"
    case '<' => "&lt;"
    case '\"' => "&quot;"
    case '\t' => "&#x9;"
    case '\n' => "&#xA;"
    case '\r' => "&#xD;"
    case _ => [c]
  }

  function EscapedText(s: string): string {
    if s == "" then "" else EscapeTextChar(s[0]) + EscapedText(s[1..])
  }

  function EscapedAttr(s: string): string {
    if s == "" then "" else EscapeAttrChar(s[0]) + EscapedAttr(s[1..])
  }

  function WrittenAttr(key: string, value: string): string {
    " " + key + "=\"" + EscapedAttr(value) + "\""
  }

  function DeclKey(prefix: string): string {
    if prefix == "" then "xmlns" else "xmlns:" + prefix
  }

  function WrittenDecls(ds: seq<Binding>): string {
    if ds == [] then "" else WrittenAttr(DeclKey(ds[0].prefix), ds[0].uri) + WrittenDecls(ds[1..])
  }

  function WrittenAttrs(attrs: seq<AttrItem>): string {
    if attrs == [] then ""
    else WrittenAttr(Join(attrs[0].prefix, attrs[0].local), attrs[0].value) + WrittenAttrs(attrs[1..])
  }

  function Written(t: Token): string {
    match t
    case OpenTag(prefix, local, decls, attrs) =>
      "<" + Join(prefix, local) + WrittenDecls(decls) + WrittenAttrs(attrs) + ">"
    case CloseTag(prefix, local) => "</" + Join(prefix, local) + ">"
    case TextRun(text) => EscapedText(text)
    case CommentNode(body) => "<!--" + body + "-->"
    case PINode(body) => "<?" + body + "?>"
  }

  function Serialise(ts: seq<Token>): string {
    if ts == [] then "" else Written(ts[0]) + Serialise(ts[1..])
  }

  /** The canonical form of an event stream. */
  ghost function Canonical(evs: seq<Event>, withComments: bool): string {
    Serialise(Emit(Resolve(evs, [map[]], withComments), [map[]]))
  }
}
