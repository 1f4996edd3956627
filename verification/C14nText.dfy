/** What the canonical text looks like, character by character. */
module C14nText {
  import opened Basics
  import opened XmlModel
  import opened Ordering
  import opened C14nSpec
  import opened C14nTheorems
  import opened C14nVariants
  import opened Canonicalizer

  // ------------------------------------------------------------------- escaping

  lemma {:induction false} EscapedAttrConcat(a: string, b: string)
    ensures EscapedAttr(a + b) == EscapedAttr(a) + EscapedAttr(b)
  {
    if a == "" {
      assert a + b == b;
    } else {
      assert (a + b)[1..] == a[1..] + b;
      EscapedAttrConcat(a[1..], b);
      Assoc(EscapeAttrChar(a[0]), EscapedAttr(a[1..]), EscapedAttr(b));
    }
  }

  /** Text: these four characters are replaced and no other, wherever they stand. */
  lemma {:induction false} TextEscapes(u: string, c: char, v: string)
    ensures EscapedText(u + [c] + v)
            == EscapedText(u) + (if c == '&' then "&amp;" else if c == '<' then "&lt;" else if c == '>' then "&gt;"
                                 else if c == '\r' then "&#xD;" else [c]) + EscapedText(v)
  {
    EscapedTextConcat(u + [c], v);
    EscapedTextConcat(u, [c]);
    assert [c][1..] == "";
    assert EscapeTextChar(c) + "" == EscapeTextChar(c);
  }

  /** Attribute values: these six. */
  lemma {:induction false} AttrEscapes(u: string, c: char, v: string)
    ensures EscapedAttr(u + [c] + v)
            == EscapedAttr(u) + (if c == '&' then "&amp;" else if c == '<' then "&lt;" else if c == '\"' then "&quot;"
                                 else if c == '\t' then "&#x9;" else if c == '\n' then "&#xA;"
                                 else if c == '\r' then "&#xD;" else [c]) + EscapedAttr(v)
  {
    EscapedAttrConcat(u + [c], v);
    EscapedAttrConcat(u, [c]);
    assert [c][1..] == "";
    assert EscapeAttrChar(c) + "" == EscapeAttrChar(c);
  }

  // ---------------------------------------------------------------- declarations

  /** What counts as a declaration, and of which prefix. */
  lemma {:induction false} DeclarationIs(key: string)
    ensures IsDecl(key) <==> key == "xmlns" || exists p :: key == "xmlns:" + p
    ensures key == "xmlns" ==> DeclPrefix(key) == ""
    ensures forall p :: key == "xmlns:" + p ==> IsDecl(key) && DeclPrefix(key) == p
  {
    if IsDecl(key) && key != "xmlns" { assert key == "xmlns:" + key[6..]; }
    forall p | key == "xmlns:" + p ensures IsDecl(key) && DeclPrefix(key) == p {
      assert key[..6] == "xmlns:" && key[6..] == p;
    }
  }

  // ---------------------------------------------------------------- a whole element

  /** The parts of a document: names without colons, and values. */
  datatype Sample = Sample(p: string, u: string, e: string, a: string, v: string, z: string, w: string,
                           t: string, c: string, i: string)

  predicate SampleOk(s: Sample) {
    && s.p != "" && s.u != "" && s.z != "xmlns" && !IsDecl(s.p + ":" + s.a)
    && ':' !in s.e && ':' !in s.a && ':' !in s.z
  }

  /** `<p:e p:a="v" z="w" xmlns:p="u">`. */
  function SampleAttrs(s: Sample): seq<Attr> {
    [Attr(s.p + ":" + s.a, s.v), Attr(s.z, s.w), Attr("xmlns:" + s.p, s.u)]
  }

  function SampleContent(s: Sample): seq<Event> {
    [Text(s.t)] + ([Comment(s.c)] + ([PI(s.i)] + ([Empty(s.z, [])] + [End(s.p + ":" + s.e)])))
  }

  function SampleEvents(s: Sample): seq<Event> {
    [Decl] + ([Start(s.p + ":" + s.e, SampleAttrs(s))] + SampleContent(s))
  }

  function SampleItem(s: Sample): Item {
    Open(s.p, s.e, s.u, [AttrItem(s.u, s.a, s.p, s.v), AttrItem("", s.z, "", s.w)])
  }

  lemma {:induction false} SampleNames(s: Sample)
    requires SampleOk(s)
    ensures SplitQName(s.p + ":" + s.e) == QName(s.p, s.e) && SplitQName(s.p + ":" + s.a) == QName(s.p, s.a)
    ensures SplitQName(s.z) == QName("", s.z) && !IsDecl(s.z)
    ensures IsDecl("xmlns:" + s.p) && DeclPrefix("xmlns:" + s.p) == s.p
  {
    SplitJoin(s.p, s.e);
    SplitJoin(s.p, s.a);
    SplitJoin("", s.z);
    DeclarationIs("xmlns:" + s.p);
    assert |s.z| >= 6 ==> s.z[..6][5] == s.z[5] && s.z[5] in s.z;
  }

  lemma {:induction false} SampleResolved(s: Sample)
    requires SampleOk(s)
    ensures Extend(map[], SampleAttrs(s)) == map[s.p := s.u]
    ensures OpenItem(s.p + ":" + s.e, SampleAttrs(s), map[s.p := s.u]) == SampleItem(s)
  {
    SampleNames(s);
    var x, y, d := Attr(s.p + ":" + s.a, s.v), Attr(s.z, s.w), Attr("xmlns:" + s.p, s.u);
    var scope := map[s.p := s.u];
    assert SampleAttrs(s) == [] + [x] + [y] + [d];
    ExtendSnoc(map[], [] + [x] + [y], d.key, d.value);
    ExtendSnoc(map[], [] + [x], y.key, y.value);
    ExtendSnoc(map[], [], x.key, x.value);
    ResolveSnoc(scope, [] + [x] + [y], d);
    ResolveSnoc(scope, [] + [x], y);
    ResolveSnoc(scope, [], x);
  }

  /** The unprefixed attribute comes first, whatever the names are. */
  lemma {:induction false} SampleSorted(s: Sample)
    requires SampleOk(s)
    ensures Sort(AttrLe, SampleItem(s).attrs) == [AttrItem("", s.z, "", s.w), AttrItem(s.u, s.a, s.p, s.v)]
  {
    var x, y := AttrItem(s.u, s.a, s.p, s.v), AttrItem("", s.z, "", s.w);
    assert SampleItem(s).attrs == [] + [x] + [y];
    SortSnoc(AttrLe, [] + [x], y);
    SortSnoc(AttrLe, [], x);
    assert !AttrLe(x, y) && [x][..0] == [];
    assert Insert(AttrLe, [x], y) == Insert(AttrLe, [], y) + [x];
  }

  lemma {:induction false} SampleDeclared(s: Sample)
    requires SampleOk(s)
    ensures Missing(Used(SampleItem(s)), map[]) == map[s.p := s.u]
    ensures InOrder(map[s.p := s.u]) == [Binding(s.p, s.u)]
  {
    var it := SampleItem(s);
    var x, y := it.attrs[0], it.attrs[1];
    assert it.attrs[..1] == [x] && [x][..0] == [];
    assert Bindings(s.p, s.u, [x]) == map[s.p := s.u];
    assert Bindings(s.p, s.u, it.attrs) == Bindings(s.p, s.u, [x]);
    InOrderUnique([Binding(s.p, s.u)], map[s.p := s.u]);
  }

  /** The open tag as text: declaration, unprefixed attribute, prefixed attribute. */
  function SampleTag(s: Sample): string {
    "<" + (s.p + ":" + s.e)
    + (" " + ("xmlns:" + s.p) + "=\"" + EscapedAttr(s.u) + "\"")
    + ((" " + s.z + "=\"" + EscapedAttr(s.w) + "\"")
       + (" " + (s.p + ":" + s.a) + "=\"" + EscapedAttr(s.v) + "\""))
    + ">"
  }

  lemma {:induction false} SampleWritten(s: Sample)
    requires SampleOk(s)
    ensures Written(TokenOf(SampleItem(s), map[])) == SampleTag(s)
  {
    SampleSorted(s);
    SampleDeclared(s);
    var d := Binding(s.p, s.u);
    var x, y := AttrItem("", s.z, "", s.w), AttrItem(s.u, s.a, s.p, s.v);
    OneDecl(d);
    TwoAttrs(x, y);
  }

  lemma {:induction false} OneDecl(d: Binding)
    requires d.prefix != ""
    ensures WrittenDecls([d]) == " " + ("xmlns:" + d.prefix) + "=\"" + EscapedAttr(d.uri) + "\""
  {
    assert [d][1..] == [];
    var t := WrittenAttr(DeclKey(d.prefix), d.uri);
    assert t + "" == t;
  }

  lemma {:induction false} TwoAttrs(x: AttrItem, y: AttrItem)
    requires x.prefix == "" && y.prefix != ""
    ensures WrittenAttrs([x, y])
            == (" " + x.local + "=\"" + EscapedAttr(x.value) + "\"")
               + (" " + (y.prefix + ":" + y.local) + "=\"" + EscapedAttr(y.value) + "\"")
  {
    assert [x, y][1..] == [y] && [y][1..] == [];
    var t := WrittenAttr(y.prefix + ":" + y.local, y.value);
    assert WrittenAttrs([y]) == t + "" == t;
    assert Join(x.prefix, x.local) == x.local;
    assert " " + x.local + "=\"" + EscapedAttr(x.value) + "\"" == WrittenAttr(x.local, x.value);
  }

  /** The text of events that stand in these scopes below these rendered bindings. */
  ghost function TextOf(evs: seq<Event>, scopes: seq<Scope>, rendered: seq<Scope>, wc: bool): string {
    Serialise(Emit(Resolve(evs, scopes, wc), rendered))
  }

  lemma {:induction false} TextFirst(e: Event, rest: seq<Event>, scopes: seq<Scope>, rendered: seq<Scope>, wc: bool)
    ensures TextOf([e] + rest, scopes, rendered, wc)
            == TextFor(e, scopes, rendered, wc)
               + TextOf(rest, ScopesAfter(e, scopes), RenderedThrough(ItemsOf(e, scopes, wc), rendered), wc)
  {
    assert ([e] + rest)[1..] == rest;
    NextText([e] + rest, scopes, rendered, wc);
  }

  lemma {:induction false} ContentFirst(e: Event, rest: seq<Event>, scopes: seq<Scope>, rendered: seq<Scope>, wc: bool)
    requires !e.Start? && !e.Empty? && !e.End?
    ensures var items := ItemsOf(e, scopes, wc);
            TextOf([e] + rest, scopes, rendered, wc)
            == (if items == [] then "" else Written(TokenOf(items[0], Top(rendered)))) + TextOf(rest, scopes, rendered, wc)
  {
    TextFirst(e, rest, scopes, rendered, wc);
    ContentText(e, scopes, rendered, wc);
  }

  /** An empty element without attributes and without prefix. */
  lemma {:induction false} EmptyFirst(z: string, rest: seq<Event>, scopes: seq<Scope>, rendered: seq<Scope>, wc: bool)
    requires SplitQName(z) == QName("", z)
    ensures TextOf([Empty(z, [])] + rest, scopes, rendered, wc)
            == ("<" + z + ">" + ("</" + z + ">")) + TextOf(rest, scopes, rendered, wc)
  {
    TextFirst(Empty(z, []), rest, scopes, rendered, wc);
    EmptyText(z, [], scopes, rendered, wc);
    BareTag(z, Top(rendered));
    assert OpenItem(z, [], Extend(Top(scopes), [])) == Open("", z, "", []);
  }

  lemma {:induction false} BareTag(z: string, rendered: Scope)
    ensures Written(TokenOf(Open("", z, "", []), rendered)) == "<" + z + ">"
  {
    assert Missing(Used(Open("", z, "", [])), rendered) == map[];
    InOrderUnique([], map[]);
    assert "<" + z + "" + "" + ">" == "<" + z + ">";
  }

  lemma {:induction false} EndAlone(name: string, scopes: seq<Scope>, rendered: seq<Scope>, wc: bool)
    requires Join(SplitQName(name).prefix, SplitQName(name).local) == name
    ensures TextOf([End(name)], scopes, rendered, wc) == "</" + name + ">"
  {
    ResolveOne(End(name), scopes, wc);
    OneWritten(CloseItem(name), rendered);
  }

  lemma {:induction false} CharsFirst(t: string, rest: seq<Event>, scopes: seq<Scope>, rendered: seq<Scope>, wc: bool)
    ensures TextOf([Text(t)] + rest, scopes, rendered, wc) == EscapedText(t) + TextOf(rest, scopes, rendered, wc)
  {
    ContentFirst(Text(t), rest, scopes, rendered, wc);
  }

  lemma {:induction false} CommentFirst(c: string, rest: seq<Event>, scopes: seq<Scope>, rendered: seq<Scope>, wc: bool)
    ensures TextOf([Comment(c)] + rest, scopes, rendered, wc)
            == (if wc then "<!--" + c + "-->" else "") + TextOf(rest, scopes, rendered, wc)
  {
    ContentFirst(Comment(c), rest, scopes, rendered, wc);
  }

  lemma {:induction false} InstructionFirst(i: string, rest: seq<Event>, scopes: seq<Scope>, rendered: seq<Scope>, wc: bool)
    ensures TextOf([PI(i)] + rest, scopes, rendered, wc) == ("<?" + i + "?>") + TextOf(rest, scopes, rendered, wc)
  {
    ContentFirst(PI(i), rest, scopes, rendered, wc);
  }

  lemma {:induction false} DeclFirst(rest: seq<Event>, scopes: seq<Scope>, rendered: seq<Scope>, wc: bool)
    ensures TextOf([Decl] + rest, scopes, rendered, wc) == TextOf(rest, scopes, rendered, wc)
  {
    ContentFirst(Decl, rest, scopes, rendered, wc);
    var t := TextOf(rest, scopes, rendered, wc);
    assert "" + t == t;
  }

  function LastPart(s: Sample): string {
    ("<" + s.z + ">" + ("</" + s.z + ">")) + ("</" + (s.p + ":" + s.e) + ">")
  }

  lemma {:induction false} LastPartText(s: Sample, scopes: seq<Scope>, rendered: seq<Scope>, wc: bool)
    requires SampleOk(s)
    ensures TextOf([Empty(s.z, [])] + [End(s.p + ":" + s.e)], scopes, rendered, wc) == LastPart(s)
  {
    SampleNames(s);
    EndAlone(s.p + ":" + s.e, scopes, rendered, wc);
    EmptyFirst(s.z, [End(s.p + ":" + s.e)], scopes, rendered, wc);
  }

  function MiddlePart(s: Sample, wc: bool): string {
    (if wc then "<!--" + s.c + "-->" else "") + (("<?" + s.i + "?>") + LastPart(s))
  }

  lemma {:induction false} MiddlePartText(s: Sample, scopes: seq<Scope>, rendered: seq<Scope>, wc: bool)
    requires SampleOk(s)
    ensures TextOf([Comment(s.c)] + ([PI(s.i)] + ([Empty(s.z, [])] + [End(s.p + ":" + s.e)])), scopes, rendered, wc)
            == MiddlePart(s, wc)
  {
    var last := [Empty(s.z, [])] + [End(s.p + ":" + s.e)];
    LastPartText(s, scopes, rendered, wc);
    InstructionFirst(s.i, last, scopes, rendered, wc);
    CommentFirst(s.c, [PI(s.i)] + last, scopes, rendered, wc);
  }

  lemma {:induction false} SampleContentText(s: Sample, scopes: seq<Scope>, rendered: seq<Scope>, wc: bool)
    requires SampleOk(s)
    ensures TextOf(SampleContent(s), scopes, rendered, wc) == EscapedText(s.t) + MiddlePart(s, wc)
  {
    MiddlePartText(s, scopes, rendered, wc);
    CharsFirst(s.t, [Comment(s.c)] + ([PI(s.i)] + ([Empty(s.z, [])] + [End(s.p + ":" + s.e)])), scopes, rendered, wc);
  }

  lemma {:induction false} SampleStart(s: Sample, rest: seq<Event>, wc: bool)
    requires SampleOk(s)
    ensures var start := Start(s.p + ":" + s.e, SampleAttrs(s));
            TextOf([start] + rest, BARE, BARE, wc)
            == SampleTag(s)
               + TextOf(rest, ScopesAfter(start, BARE), RenderedThrough(ItemsOf(start, BARE, wc), BARE), wc)
  {
    var start := Start(s.p + ":" + s.e, SampleAttrs(s));
    TextFirst(start, rest, BARE, BARE, wc);
    SampleStartText(s, wc);
  }

  lemma {:induction false} SampleStartText(s: Sample, wc: bool)
    requires SampleOk(s)
    ensures TextFor(Start(s.p + ":" + s.e, SampleAttrs(s)), BARE, BARE, wc) == SampleTag(s)
  {
    assert Top(BARE) == map[];
    SampleResolved(s);
    SampleWritten(s);
    OneWritten(SampleItem(s), BARE);
  }

  /** The canonical text of
      `<?xml?><p:e p:a="v" z="w" xmlns:p="u">t<!--c--><?i?><z/></p:e>`, for all names and values:
      `<p:e xmlns:p="u" z="w" p:a="v">t<!--c--><?i?><z></z></p:e>`, with escapes, and without the
      comment unless comments are kept. */
  lemma {:induction false} SampleText(s: Sample, wc: bool)
    requires SampleOk(s)
    ensures Canonical(SampleEvents(s), wc) == SampleTag(s) + (EscapedText(s.t) + MiddlePart(s, wc))
  {
    var start := Start(s.p + ":" + s.e, SampleAttrs(s));
    DeclFirst([start] + SampleContent(s), BARE, BARE, wc);
    SampleStart(s, SampleContent(s), wc);
    SampleContentText(s, ScopesAfter(start, BARE), RenderedThrough(ItemsOf(start, BARE, wc), BARE), wc);
  }
}
