/** `canonicalize` as it runs: one pass over the events, two stacks of association lists,
    text appended as it goes. */
module Canonicalizer {
  import opened Basics
  import opened XmlModel
  import opened Ordering
  import opened C14nSpec
  import opened C14nTheorems
  import opened C14nVariants

  datatype C14nMode = Verbatim | Exclusive | ExclusiveWithComments

  // ------------------------------------------------------------ association lists

  /** The bindings of a list; a later entry hides an earlier one. */
  function AsScope(bs: seq<Binding>): Scope {
    if bs == [] then map[] else AsScope(bs[..|bs| - 1])[bs[|bs| - 1].prefix := bs[|bs| - 1].uri]
  }

  lemma {:induction false} AsScopeSnoc(bs: seq<Binding>, x: Binding)
    ensures AsScope(bs + [x]) == AsScope(bs)[x.prefix := x.uri]
  {
    assert (bs + [x])[..|bs|] == bs;
  }

  lemma {:induction false} AsScopeHas(bs: seq<Binding>, p: string)
    requires Distinct(bs)
    ensures p in AsScope(bs) <==> exists i :: 0 <= i < |bs| && bs[i].prefix == p
    ensures forall i :: 0 <= i < |bs| && bs[i].prefix == p ==> AsScope(bs)[p] == bs[i].uri
  {
    if bs != [] {
      var n := |bs| - 1;
      AsScopeHas(bs[..n], p);
      if bs[n].prefix != p {
        forall i | 0 <= i < |bs| && bs[i].prefix == p ensures bs[..n][i].prefix == p {}
      }
    }
  }

  lemma {:induction false} AsScopeUpdated(bs: seq<Binding>, k: nat, uri: string)
    requires Distinct(bs) && k < |bs|
    ensures AsScope(bs[k := bs[k].(uri := uri)]) == AsScope(bs)[bs[k].prefix := uri]
  {
    var n := |bs| - 1;
    var cs := bs[k := bs[k].(uri := uri)];
    if k == n {
      assert cs[..n] == bs[..n];
    } else {
      AsScopeUpdated(bs[..n], k, uri);
      assert cs[..n] == bs[..n][k := bs[k].(uri := uri)];
    }
  }

  /** `resolve_ns`: search from the end. */
  method ResolveNs(scope: seq<Binding>, prefix: string) returns (uri: string)
    ensures uri == Lookup(AsScope(scope), prefix)
  {
    var i := |scope|;
    assert scope[..i] == scope;
    while i > 0
      invariant 0 <= i <= |scope|
      invariant Lookup(AsScope(scope), prefix) == Lookup(AsScope(scope[..i]), prefix)
    {
      i := i - 1;
      assert scope[..i + 1][..i] == scope[..i];
      if scope[i].prefix == prefix {
        return scope[i].uri;
      }
    }
    return "";
  }

  /** Overwrite the entry of `prefix`, or append one. */
  method SetBinding(scope: seq<Binding>, prefix: string, uri: string) returns (r: seq<Binding>)
    requires Distinct(scope)
    ensures Distinct(r) && AsScope(r) == AsScope(scope)[prefix := uri]
  {
    var i := 0;
    while i < |scope|
      invariant 0 <= i <= |scope|
      invariant forall j :: 0 <= j < i ==> scope[j].prefix != prefix
    {
      if scope[i].prefix == prefix {
        AsScopeUpdated(scope, i, uri);
        return scope[i := scope[i].(uri := uri)];
      }
      i := i + 1;
    }
    AsScopeSnoc(scope, Binding(prefix, uri));
    return scope + [Binding(prefix, uri)];
  }

  // --------------------------------------------------------------- one start-tag

  /** The scope of an element from its parent's and its declarations. */
  method ScopeOf(parent: seq<Binding>, attrs: seq<Attr>) returns (scope: seq<Binding>)
    requires Distinct(parent)
    ensures Distinct(scope) && AsScope(scope) == Extend(AsScope(parent), attrs)
  {
    scope := parent;
    var i := 0;
    while i < |attrs|
      invariant 0 <= i <= |attrs|
      invariant Distinct(scope) && AsScope(scope) == Extend(AsScope(parent), attrs[..i])
    {
      assert attrs[..i + 1][..i] == attrs[..i];
      if IsDecl(attrs[i].key) {
        scope := SetBinding(scope, DeclPrefix(attrs[i].key), attrs[i].value);
      }
      i := i + 1;
    }
    assert attrs[..i] == attrs;
  }

  method CollectAttrs(scope: seq<Binding>, attrs: seq<Attr>) returns (items: seq<AttrItem>)
    ensures items == ResolveAttrs(AsScope(scope), attrs)
  {
    items := [];
    var i := 0;
    while i < |attrs|
      invariant 0 <= i <= |attrs|
      invariant items == ResolveAttrs(AsScope(scope), attrs[..i])
    {
      assert attrs[..i + 1][..i] == attrs[..i];
      if !IsDecl(attrs[i].key) {
        var q := SplitQName(attrs[i].key);
        var uri := "";
        if q.prefix != "" {
          uri := ResolveNs(scope, q.prefix);
        }
        items := items + [AttrItem(uri, q.local, q.prefix, attrs[i].value)];
      }
      i := i + 1;
    }
    assert attrs[..i] == attrs;
  }

  /** The non-empty prefixes of the element and its attributes, each once. */
  method UtilisedPrefixes(prefix: string, attrs: seq<AttrItem>) returns (ps: seq<string>)
    ensures forall i, j :: 0 <= i < j < |ps| ==> ps[i] != ps[j]
    ensures forall p :: p in ps <==> Uses(prefix, attrs, p)
  {
    ps := if prefix == "" then [] else [prefix];
    var i := 0;
    while i < |attrs|
      invariant 0 <= i <= |attrs|
      invariant forall j, k :: 0 <= j < k < |ps| ==> ps[j] != ps[k]
      invariant forall p :: p in ps <==>
                  p != "" && (p == prefix || exists j :: 0 <= j < i && attrs[j].prefix == p)
    {
      if attrs[i].prefix != "" && attrs[i].prefix !in ps {
        ps := ps + [attrs[i].prefix];
      }
      i := i + 1;
    }
  }

  method Contains(bs: seq<Binding>, prefix: string, uri: string) returns (found: bool)
    requires Distinct(bs)
    ensures found <==> prefix in AsScope(bs) && AsScope(bs)[prefix] == uri
  {
    AsScopeHas(bs, prefix);
    var i := 0;
    while i < |bs|
      invariant 0 <= i <= |bs|
      invariant forall j :: 0 <= j < i ==> !(bs[j].prefix == prefix && bs[j].uri == uri)
    {
      if bs[i].prefix == prefix && bs[i].uri == uri {
        return true;
      }
      i := i + 1;
    }
    return false;
  }

  /** What has to be declared for `ps[..n]`. */
  ghost function Due(scope: Scope, ps: seq<string>, rendered: Scope): Scope {
    map p | p in ps && Lookup(scope, p) != "" && !(p in rendered && rendered[p] == Lookup(scope, p))
      :: Lookup(scope, p)
  }

  lemma {:induction false} DueSnoc(scope: Scope, ps: seq<string>, n: nat, rendered: Scope)
    requires n < |ps| && ps[n] !in ps[..n]
    ensures var u := Lookup(scope, ps[n]);
            Due(scope, ps[..n + 1], rendered)
            == if u == "" || (ps[n] in rendered && rendered[ps[n]] == u) then Due(scope, ps[..n], rendered)
               else Due(scope, ps[..n], rendered)[ps[n] := u]
  {
    assert ps[..n + 1] == ps[..n] + [ps[n]];
  }

  lemma {:induction false} ListsSnoc(ds: seq<Binding>, m: Scope, p: string, uri: string)
    requires Lists(ds, m) && p !in m
    ensures Lists(ds + [Binding(p, uri)], m[p := uri])
  {
    var x, m' := Binding(p, uri), m[p := uri];
    assert (ds + [x])[|ds|] == x;
    forall q | q in m' ensures Binding(q, m'[q]) in ds + [x] {
      if q != p { assert Binding(q, m[q]) in ds; }
    }
  }

  lemma {:induction false} PlusPut(a: Scope, b: Scope, p: string, u: string)
    ensures (a + b)[p := u] == a + b[p := u]
  {}

  /** The declarations an element must carry, and the rendered set of its children. */
  method Declarations(scope: seq<Binding>, ps: seq<string>, parent: seq<Binding>)
    returns (decls: seq<Binding>, rendered: seq<Binding>)
    requires Distinct(parent)
    requires forall i, j :: 0 <= i < j < |ps| ==> ps[i] != ps[j]
    ensures Lists(decls, Due(AsScope(scope), ps, AsScope(parent)))
    ensures Distinct(rendered)
    ensures AsScope(rendered) == AsScope(parent) + Due(AsScope(scope), ps, AsScope(parent))
  {
    decls, rendered := [], parent;
    var i := 0;
    while i < |ps|
      invariant 0 <= i <= |ps|
      invariant Lists(decls, Due(AsScope(scope), ps[..i], AsScope(parent)))
      invariant Distinct(rendered)
      invariant AsScope(rendered) == AsScope(parent) + Due(AsScope(scope), ps[..i], AsScope(parent))
    {
      ghost var before := Due(AsScope(scope), ps[..i], AsScope(parent));
      DueSnoc(AsScope(scope), ps, i, AsScope(parent));
      var uri := ResolveNs(scope, ps[i]);
      if uri != "" {
        var already := Contains(parent, ps[i], uri);
        if !already {
          ListsSnoc(decls, before, ps[i], uri);
          PlusPut(AsScope(parent), before, ps[i], uri);
          decls := decls + [Binding(ps[i], uri)];
          rendered := SetBinding(rendered, ps[i], uri);
        }
      }
      i := i + 1;
    }
    assert ps[..i] == ps;
  }

  /** For an element resolved in `scope`, what is due is what is missing. */
  lemma {:induction false} DueIsMissing(it: Item, scope: Scope, ps: seq<string>, rendered: Scope)
    requires it.Open? && it.uri == UriOf(scope, it.prefix)
    requires forall i :: 0 <= i < |it.attrs| ==> it.attrs[i].uri == UriOf(scope, it.attrs[i].prefix)
    requires forall p :: p in ps <==> Uses(it.prefix, it.attrs, p)
    ensures Due(scope, ps, rendered) == Missing(Used(it), rendered)
  {
    forall p ensures p in ps <==> p in Used(it)
             ensures p in Used(it) ==> Used(it)[p] == Lookup(scope, p)
    {
      BindingsDomain(it.prefix, it.uri, it.attrs, p);
      BindingsFromScope(it.prefix, it.attrs, scope, p);
    }
  }

  lemma {:induction false} ResolvedUris(scope: Scope, attrs: seq<Attr>)
    ensures forall x :: x in ResolveAttrs(scope, attrs) ==> x.uri == UriOf(scope, x.prefix)
  {
    if attrs != [] { ResolvedUris(scope, attrs[..|attrs| - 1]); }
  }

  // ------------------------------------------------------------------- output

  lemma {:induction false} EscapedTextAt(s: string, i: nat)
    requires i < |s|
    ensures EscapedText(s[i..]) == EscapeTextChar(s[i]) + EscapedText(s[i + 1..])
  {
    assert s[i..][1..] == s[i + 1..];
  }

  method EscapeText(s: string) returns (out: string)
    ensures out == EscapedText(s)
  {
    out := "";
    var i := 0;
    while i < |s|
      invariant 0 <= i <= |s|
      invariant out + EscapedText(s[i..]) == EscapedText(s)
    {
      EscapedTextAt(s, i);
      Assoc(out, EscapeTextChar(s[i]), EscapedText(s[i + 1..]));
      out := out + EscapeTextChar(s[i]);
      i := i + 1;
    }
  }

  lemma {:induction false} EscapedAttrAt(s: string, i: nat)
    requires i < |s|
    ensures EscapedAttr(s[i..]) == EscapeAttrChar(s[i]) + EscapedAttr(s[i + 1..])
  {
    assert s[i..][1..] == s[i + 1..];
  }

  method EscapeAttr(s: string) returns (out: string)
    ensures out == EscapedAttr(s)
  {
    out := "";
    var i := 0;
    while i < |s|
      invariant 0 <= i <= |s|
      invariant out + EscapedAttr(s[i..]) == EscapedAttr(s)
    {
      EscapedAttrAt(s, i);
      Assoc(out, EscapeAttrChar(s[i]), EscapedAttr(s[i + 1..]));
      out := out + EscapeAttrChar(s[i]);
      i := i + 1;
    }
  }

  lemma {:induction false} WrittenDeclsAt(decls: seq<Binding>, i: nat)
    requires i < |decls|
    ensures WrittenDecls(decls[i..])
            == WrittenAttr(DeclKey(decls[i].prefix), decls[i].uri) + WrittenDecls(decls[i + 1..])
  {
    assert decls[i..][1..] == decls[i + 1..];
  }

  method WriteDecls(decls: seq<Binding>) returns (out: string)
    ensures out == WrittenDecls(decls)
  {
    out := "";
    var i := 0;
    while i < |decls|
      invariant 0 <= i <= |decls|
      invariant out + WrittenDecls(decls[i..]) == WrittenDecls(decls)
    {
      var value := EscapeAttr(decls[i].uri);
      var written := " " + DeclKey(decls[i].prefix) + "=\"" + value + "\"";
      WrittenDeclsAt(decls, i);
      Assoc(out, written, WrittenDecls(decls[i + 1..]));
      out := out + written;
      i := i + 1;
    }
  }

  lemma {:induction false} WrittenAttrsAt(attrs: seq<AttrItem>, i: nat)
    requires i < |attrs|
    ensures WrittenAttrs(attrs[i..])
            == WrittenAttr(Join(attrs[i].prefix, attrs[i].local), attrs[i].value) + WrittenAttrs(attrs[i + 1..])
  {
    assert attrs[i..][1..] == attrs[i + 1..];
  }

  method WriteAttrs(attrs: seq<AttrItem>) returns (out: string)
    ensures out == WrittenAttrs(attrs)
  {
    out := "";
    var i := 0;
    while i < |attrs|
      invariant 0 <= i <= |attrs|
      invariant out + WrittenAttrs(attrs[i..]) == WrittenAttrs(attrs)
    {
      var value := EscapeAttr(attrs[i].value);
      var written := " " + Join(attrs[i].prefix, attrs[i].local) + "=\"" + value + "\"";
      WrittenAttrsAt(attrs, i);
      Assoc(out, written, WrittenAttrs(attrs[i + 1..]));
      out := out + written;
      i := i + 1;
    }
  }

  /** The open tag of an element, with the scope and rendered set its children see. */
  method StartTag(name: string, attrs: seq<Attr>, parentScope: seq<Binding>, parentRendered: seq<Binding>)
    returns (text: string, scope: seq<Binding>, rendered: seq<Binding>)
    requires Distinct(parentScope) && Distinct(parentRendered)
    ensures Distinct(scope) && Distinct(rendered)
    ensures AsScope(scope) == Extend(AsScope(parentScope), attrs)
    ensures var it := OpenItem(name, attrs, AsScope(scope));
            && text == Written(TokenOf(it, AsScope(parentRendered)))
            && AsScope(rendered) == AsScope(parentRendered) + Missing(Used(it), AsScope(parentRendered))
  {
    var q := SplitQName(name);
    scope := ScopeOf(parentScope, attrs);
    var items := CollectAttrs(scope, attrs);
    var ps := UtilisedPrefixes(q.prefix, items);
    var decls;
    decls, rendered := Declarations(scope, ps, parentRendered);
    ghost var it := OpenItem(name, attrs, AsScope(scope));
    ResolvedUris(AsScope(scope), attrs);
    DueIsMissing(it, AsScope(scope), ps, AsScope(parentRendered));
    decls := SortDecls(decls, Missing(Used(it), AsScope(parentRendered)));
    var d := WriteDecls(decls);
    var a := WriteAttrs(Sort(AttrLe, items));
    text := "<" + Join(q.prefix, q.local) + d + a + ">";
  }

  method SortDecls(decls: seq<Binding>, ghost m: Scope) returns (r: seq<Binding>)
    requires Lists(decls, m)
    ensures r == InOrder(m)
  {
    r := Sort(BindingLe, decls);
    BindingOrder();
    SortSorts(BindingLe, decls);
    ListsPermuted(decls, r, m);
    InOrderUnique(r, m);
  }

  // ------------------------------------------------------------------ main loop

  ghost function AsStack(stack: seq<seq<Binding>>): seq<Scope> {
    seq(|stack|, i requires 0 <= i < |stack| => AsScope(stack[i]))
  }

  ghost predicate DistinctAll(stack: seq<seq<Binding>>) {
    forall i :: 0 <= i < |stack| ==> Distinct(stack[i])
  }

  /** `last().cloned().unwrap_or_default()` */
  function Last(stack: seq<seq<Binding>>): seq<Binding> {
    if stack == [] then [] else stack[|stack| - 1]
  }

  function Popped(stack: seq<seq<Binding>>): seq<seq<Binding>> {
    if stack == [] then [] else stack[..|stack| - 1]
  }

  lemma {:induction false} StackFacts(stack: seq<seq<Binding>>, x: seq<Binding>)
    requires DistinctAll(stack)
    ensures Top(AsStack(stack)) == AsScope(Last(stack)) && Distinct(Last(stack))
    ensures AsStack(Popped(stack)) == Pop(AsStack(stack)) && DistinctAll(Popped(stack))
    ensures AsStack(stack + [x]) == AsStack(stack) + [AsScope(x)]
    ensures Distinct(x) ==> DistinctAll(stack + [x])
  {}

  lemma {:induction false} EmitConcat(a: seq<Item>, b: seq<Item>, rendered: seq<Scope>)
    ensures Serialise(Emit(a + b, rendered))
            == Serialise(Emit(a, rendered)) + Serialise(Emit(b, RenderedThrough(a, rendered)))
  {
    if a == [] {
      assert a + b == b;
    } else {
      var it, rest, r' := a[0], a[1..], RenderedAfter(a[0], rendered);
      var w := Written(TokenOf(it, Top(rendered)));
      assert a + b == [it] + (rest + b) && a == [it] + rest;
      EmitConcat(rest, b, r');
      calc {
        Serialise(Emit(a + b, rendered));
        { EmitCons(it, rest + b, rendered); }
        w + Serialise(Emit(rest + b, r'));
        w + (Serialise(Emit(rest, r')) + Serialise(Emit(b, RenderedThrough(rest, r'))));
        { Assoc(w, Serialise(Emit(rest, r')), Serialise(Emit(b, RenderedThrough(rest, r')))); }
        w + Serialise(Emit(rest, r')) + Serialise(Emit(b, RenderedThrough(rest, r')));
        { EmitCons(it, rest, rendered); }
        Serialise(Emit(a, rendered)) + Serialise(Emit(b, RenderedThrough(rest, r')));
      }
    }
  }

  /** The text one event contributes. */
  ghost function TextFor(e: Event, scopes: seq<Scope>, rendered: seq<Scope>, wc: bool): string {
    Serialise(Emit(ItemsOf(e, scopes, wc), rendered))
  }

  lemma {:induction false} OneWritten(it: Item, rendered: seq<Scope>)
    ensures Serialise(Emit([it], rendered)) == Written(TokenOf(it, Top(rendered)))
    ensures RenderedThrough([it], rendered) == RenderedAfter(it, rendered)
  {
    assert [it] + [] == [it] && [it][1..] == [];
    EmitCons(it, [], rendered);
  }

  lemma {:induction false} TwoWritten(it: Item, jt: Item, rendered: seq<Scope>)
    requires it.Open? && jt.Close?
    ensures Serialise(Emit([it, jt], rendered))
            == Written(TokenOf(it, Top(rendered))) + Written(TokenOf(jt, Top(RenderedAfter(it, rendered))))
    ensures RenderedThrough([it, jt], rendered) == rendered
  {
    OneWritten(it, rendered);
    OneWritten(jt, RenderedAfter(it, rendered));
    assert [it, jt] == [it] + [jt] && [it, jt][1..] == [jt];
    EmitConcat([it], [jt], rendered);
    assert Pop(RenderedAfter(it, rendered)) == rendered;
  }

  /** A start-tag pushes a scope and a rendered set. */
  method StepStart(name: string, attrs: seq<Attr>, ns: seq<seq<Binding>>, rs: seq<seq<Binding>>, ghost wc: bool)
    returns (text: string, ns': seq<seq<Binding>>, rs': seq<seq<Binding>>)
    requires DistinctAll(ns) && DistinctAll(rs)
    ensures DistinctAll(ns') && DistinctAll(rs')
    ensures text == TextFor(Start(name, attrs), AsStack(ns), AsStack(rs), wc)
    ensures AsStack(ns') == ScopesAfter(Start(name, attrs), AsStack(ns))
    ensures AsStack(rs') == RenderedThrough(ItemsOf(Start(name, attrs), AsStack(ns), wc), AsStack(rs))
  {
    StackFacts(ns, []);
    StackFacts(rs, []);
    var scope, rendered;
    text, scope, rendered := StartTag(name, attrs, Last(ns), Last(rs));
    ns', rs' := ns + [scope], rs + [rendered];
    StackFacts(ns, scope);
    StackFacts(rs, rendered);
    OneWritten(OpenItem(name, attrs, AsScope(scope)), AsStack(rs));
  }

  /** An empty element is written as an open and a close tag; the stacks stay. */
  method StepEmpty(name: string, attrs: seq<Attr>, ns: seq<seq<Binding>>, rs: seq<seq<Binding>>, ghost wc: bool)
    returns (text: string)
    requires DistinctAll(ns) && DistinctAll(rs)
    ensures text == TextFor(Empty(name, attrs), AsStack(ns), AsStack(rs), wc)
    ensures RenderedThrough(ItemsOf(Empty(name, attrs), AsStack(ns), wc), AsStack(rs)) == AsStack(rs)
  {
    StackFacts(ns, []);
    StackFacts(rs, []);
    var open, scope, rendered := StartTag(name, attrs, Last(ns), Last(rs));
    var q := SplitQName(name);
    text := open + ("</" + Join(q.prefix, q.local) + ">");
    EmptyText(name, attrs, AsStack(ns), AsStack(rs), wc);
  }

  /** What an empty element contributes. */
  lemma {:induction false} EmptyText(name: string, attrs: seq<Attr>, scopes: seq<Scope>, rendered: seq<Scope>, wc: bool)
    ensures var it, q := OpenItem(name, attrs, Extend(Top(scopes), attrs)), SplitQName(name);
            && TextFor(Empty(name, attrs), scopes, rendered, wc)
               == Written(TokenOf(it, Top(rendered))) + ("</" + Join(q.prefix, q.local) + ">")
            && RenderedThrough(ItemsOf(Empty(name, attrs), scopes, wc), rendered) == rendered
  {
    var it, jt := OpenItem(name, attrs, Extend(Top(scopes), attrs)), CloseItem(name);
    assert ItemsOf(Empty(name, attrs), scopes, wc) == [it, jt];
    TwoWritten(it, jt, rendered);
  }

  /** Content is at most one item, which leaves the rendered bindings alone. */
  lemma {:induction false} ContentText(e: Event, scopes: seq<Scope>, rendered: seq<Scope>, wc: bool)
    requires !e.Start? && !e.Empty? && !e.End?
    ensures var items := ItemsOf(e, scopes, wc);
            && TextFor(e, scopes, rendered, wc) == (if items == [] then "" else Written(TokenOf(items[0], Top(rendered))))
            && RenderedThrough(items, rendered) == rendered
  {
    var items := ItemsOf(e, scopes, wc);
    if items != [] {
      assert items == [items[0]];
      OneWritten(items[0], rendered);
    }
  }

  /** Everything that is neither a start-tag nor an end-tag. */
  method StepContent(e: Event, ghost scopes: seq<Scope>, ghost rendered: seq<Scope>, wc: bool) returns (text: string)
    requires !e.Start? && !e.Empty? && !e.End?
    ensures text == TextFor(e, scopes, rendered, wc)
    ensures RenderedThrough(ItemsOf(e, scopes, wc), rendered) == rendered
  {
    ContentText(e, scopes, rendered, wc);
    text := "";
    match e
    case Text(t) => text := EscapeText(t);
    case CData(t) => text := EscapeText(t);
    case Comment(body) =>
      if wc {
        text := "<!--" + body + "-->";
      }
    case PI(body) => text := "<?" + body + "?>";
    case Decl =>
    case DocType =>
  }

  /** One turn of the loop: the text for `e`, and both stacks after it. */
  method Step(e: Event, ns: seq<seq<Binding>>, rs: seq<seq<Binding>>, wc: bool)
    returns (text: string, ns': seq<seq<Binding>>, rs': seq<seq<Binding>>)
    requires DistinctAll(ns) && DistinctAll(rs)
    ensures DistinctAll(ns') && DistinctAll(rs')
    ensures text == TextFor(e, AsStack(ns), AsStack(rs), wc)
    ensures AsStack(ns') == ScopesAfter(e, AsStack(ns))
    ensures AsStack(rs') == RenderedThrough(ItemsOf(e, AsStack(ns), wc), AsStack(rs))
  {
    ns', rs' := ns, rs;
    match e
    case Start(name, attrs) =>
      text, ns', rs' := StepStart(name, attrs, ns, rs, wc);
    case Empty(name, attrs) =>
      text := StepEmpty(name, attrs, ns, rs, wc);
    case End(name) =>
      var q := SplitQName(name);
      text := "</" + Join(q.prefix, q.local) + ">";
      OneWritten(CloseItem(name), AsStack(rs));
      StackFacts(ns, []);
      StackFacts(rs, []);
      ns', rs' := Popped(ns), Popped(rs);
    case _ =>
      text := StepContent(e, AsStack(ns), AsStack(rs), wc);
  }

  lemma {:induction false} NextText(evs: seq<Event>, scopes: seq<Scope>, rendered: seq<Scope>, wc: bool)
    requires evs != []
    ensures Serialise(Emit(Resolve(evs, scopes, wc), rendered))
            == TextFor(evs[0], scopes, rendered, wc)
               + Serialise(Emit(Resolve(evs[1..], ScopesAfter(evs[0], scopes), wc),
                                RenderedThrough(ItemsOf(evs[0], scopes, wc), rendered)))
  {
    EmitConcat(ItemsOf(evs[0], scopes, wc), Resolve(evs[1..], ScopesAfter(evs[0], scopes), wc), rendered);
  }

  ghost function Remaining(evs: seq<Event>, ns: seq<seq<Binding>>, rs: seq<seq<Binding>>, wc: bool): string {
    Serialise(Emit(Resolve(evs, AsStack(ns), wc), AsStack(rs)))
  }

  /** The loop of `canonicalize`. */
  method WriteEvents(evs: seq<Event>, wc: bool) returns (out: string)
    ensures out == Canonical(evs, wc)
  {
    var ns: seq<seq<Binding>>, rs: seq<seq<Binding>> := [[]], [[]];
    assert AsStack(ns) == [map[]] && AsStack(rs) == [map[]];
    out := "";
    var i := 0;
    assert evs[i..] == evs;
    while i < |evs|
      invariant 0 <= i <= |evs|
      invariant DistinctAll(ns) && DistinctAll(rs)
      invariant out + Remaining(evs[i..], ns, rs, wc) == Canonical(evs, wc)
    {
      ghost var out', ns', rs' := out, ns, rs;
      NextText(evs[i..], AsStack(ns), AsStack(rs), wc);
      assert evs[i..][1..] == evs[i + 1..];
      var text;
      text, ns, rs := Step(evs[i], ns, rs, wc);
      assert Remaining(evs[i..], ns', rs', wc) == text + Remaining(evs[i + 1..], ns, rs, wc);
      Assoc(out, text, Remaining(evs[i + 1..], ns, rs, wc));
      out := out + text;
      i := i + 1;
    }
  }

  /** `canonicalize(bytes, mode)`, where the parser splits `bytes` into `evs` (up to the end
      of input or the first error, which both end the loop). In the output, declarations and
      attributes of every tag are in order. */
  method Canonicalize(bytes: string, evs: seq<Event>, mode: C14nMode) returns (out: string)
    ensures mode == Verbatim ==> out == bytes
    ensures mode != Verbatim ==> out == Canonical(evs, mode == ExclusiveWithComments)
    ensures mode != Verbatim ==>
              var ts := Tokens(evs, mode == ExclusiveWithComments); out == Serialise(ts) && TagsInOrder(ts)
  {
    if mode == Verbatim {
      return bytes;
    }
    var wc := mode == ExclusiveWithComments;
    out := WriteEvents(evs, wc);
    EmitInOrder(Resolve(evs, BARE, wc), BARE);
  }
}
