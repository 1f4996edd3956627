/** The results on bytes: equal output means equal resolved items, and the output is a
    fixpoint. */
module C14nDocuments {
  import opened XmlModel
  import opened Ordering
  import opened C14nSpec
  import opened C14nTheorems
  import opened C14nVariants
  import opened C14nReader

  ghost predicate NameOk(name: string) {
    NameChars(name) && SplitQName(name).local != ""
  }

  /** Names, comments and instructions obey the XML grammar as far as the delimiters go. */
  ghost predicate Spelled(e: Event) {
    match e
    case Start(name, attrs) => NameOk(name) && forall a :: a in attrs ==> NameOk(a.key)
    case Empty(name, attrs) => NameOk(name) && forall a :: a in attrs ==> NameOk(a.key)
    case End(name) => NameOk(name)
    case Comment(body) => EndsAt(body, "-->")
    case PI(body) => EndsAt(body, "?>")
    case _ => true
  }

  /** A namespace-well-formed stream as a parser delivers it. */
  ghost predicate Parsed(evs: seq<Event>) {
    WellFormed(evs) && forall e :: e in evs ==> Spelled(e)
  }

  ghost predicate ItemSpelled(it: Item) {
    match it
    case Open(prefix, local, uri, attrs) =>
      && NameChars(Join(prefix, local)) && Join(prefix, local) != ""
      && (forall a :: a in attrs ==> NameChars(Join(a.prefix, a.local)))
    case Close(prefix, local) => NameChars(Join(prefix, local))
    case Remark(body) => EndsAt(body, "-->")
    case Instruction(body) => EndsAt(body, "?>")
    case Chars(_) => true
  }

  lemma {:induction false} NameSplit(name: string)
    requires NameOk(name)
    ensures var q := SplitQName(name); NameChars(Join(q.prefix, q.local)) && Join(q.prefix, q.local) != ""
  {
    var q := SplitQName(name);
    forall c | c in Join(q.prefix, q.local) ensures c in name {}
  }

  lemma {:induction false} AttrsSpelled(scope: Scope, attrs: seq<Attr>)
    requires forall a :: a in attrs ==> NameOk(a.key)
    ensures forall x :: x in ResolveAttrs(scope, attrs) ==> NameChars(Join(x.prefix, x.local))
  {
    if attrs != [] {
      var a := attrs[|attrs| - 1];
      assert a in attrs;
      NameSplit(a.key);
      AttrsSpelled(scope, attrs[..|attrs| - 1]);
    }
  }

  lemma {:induction false} ItemsSpelled(evs: seq<Event>, scopes: seq<Scope>, wc: bool)
    requires forall e :: e in evs ==> Spelled(e)
    ensures forall it :: it in Resolve(evs, scopes, wc) ==> ItemSpelled(it)
  {
    if evs != [] {
      var e := evs[0];
      ItemsSpelled(evs[1..], ScopesAfter(e, scopes), wc);
      assert Spelled(e);
      if e.Start? || e.Empty? {
        NameSplit(e.name);
        AttrsSpelled(Extend(Top(scopes), e.attrs), e.attrs);
      } else if e.End? {
        NameSplit(e.name);
      }
      forall it | it in ItemsOf(e, scopes, wc) ensures ItemSpelled(it) {}
    }
  }

  lemma {:induction false} JoinTextSpelled(items: seq<Item>)
    requires forall it :: it in items ==> ItemSpelled(it)
    ensures forall it :: it in JoinText(items) ==> ItemSpelled(it)
  {
    if items != [] { JoinTextSpelled(items[1..]); }
  }

  lemma {:induction false} SortItemKeeps(it: Item)
    ensures ItemSpelled(it) ==> ItemSpelled(SortItem(it))
    ensures Sound(it) ==> Sound(SortItem(it))
  {
    if it.Open? {
      SortedAttrs(it.attrs);
      if Sound(it) {
        SortedBindings(it);
        var st := SortItem(it);
        forall i | 0 <= i < |st.attrs| ensures st.attrs[i] in it.attrs {
          assert st.attrs[i] in Sort(AttrLe, it.attrs);
        }
      }
    }
  }

  /** What can be said of each item of a parsed document. */
  ghost predicate Clean(items: seq<Item>, wc: bool) {
    forall i :: 0 <= i < |items| ==>
      Sound(items[i]) && ItemSpelled(items[i]) && (items[i].Remark? ==> wc)
  }

  lemma {:induction false} SortItemsIndexed(items: seq<Item>)
    ensures |SortItems(items)| == |items|
    ensures forall i :: 0 <= i < |items| ==> SortItems(items)[i] == SortItem(items[i])
  {
    if items != [] { SortItemsIndexed(items[1..]); }
  }

  lemma {:induction false} SortItemsClean(items: seq<Item>, wc: bool)
    requires Clean(items, wc)
    ensures Clean(SortItems(items), wc)
  {
    SortItemsIndexed(items);
    forall i | 0 <= i < |items|
      ensures Sound(SortItem(items[i])) && ItemSpelled(SortItem(items[i]))
    {
      SortItemKeeps(items[i]);
    }
  }

  lemma {:induction false} SortItemsTwice(items: seq<Item>)
    ensures SortItems(SortItems(items)) == SortItems(items)
  {
    SortItemsIndexed(items);
    SortItemsIndexed(SortItems(items));
    forall i | 0 <= i < |items| ensures SortItem(SortItem(items[i])) == SortItem(items[i]) {
      if items[i].Open? {
        AttrOrder();
        SortSorts(AttrLe, items[i].attrs);
        SortOfSorted(AttrLe, Sort(AttrLe, items[i].attrs));
      }
    }
  }

  // ------------------------------------------------------------ text kept apart

  ghost predicate TextApart(items: seq<Item>) {
    && (forall i :: 0 <= i < |items| && items[i].Chars? ==> items[i].text != "")
    && (forall i :: 0 < i < |items| ==> !(items[i - 1].Chars? && items[i].Chars?))
  }

  lemma {:induction false} JoinTextApart(items: seq<Item>)
    ensures TextApart(JoinText(items))
  {
    if items != [] { JoinTextApart(items[1..]); }
  }

  lemma {:induction false} JoinTextTwice(items: seq<Item>)
    requires TextApart(items)
    ensures JoinText(items) == items
  {
    if items != [] {
      assert TextApart(items[1..]);
      JoinTextTwice(items[1..]);
      assert items == [items[0]] + items[1..];
    }
  }

  // ------------------------------------------------------------------- masking

  lemma {:induction false} JoinTextUnmasked(items: seq<Item>, rendered: seq<Scope>)
    requires NothingMasked(items, rendered)
    ensures NothingMasked(JoinText(items), rendered)
  {
    if items != [] {
      var it, rest := items[0], JoinText(items[1..]);
      JoinTextUnmasked(items[1..], RenderedAfter(it, rendered));
      assert ([it] + rest)[1..] == rest;
      if it.Chars? && it.text != "" && rest != [] && rest[0].Chars? {
        assert RenderedAfter(rest[0], rendered) == rendered;
        var both := Chars(it.text + rest[0].text);
        assert ([both] + rest[1..])[1..] == rest[1..];
      }
    }
  }

  lemma {:induction false} SortItemsUnmasked(items: seq<Item>, rendered: seq<Scope>)
    requires NothingMasked(items, rendered) && forall it :: it in items ==> Sound(it)
    ensures NothingMasked(SortItems(items), rendered)
  {
    if items != [] {
      var it := items[0];
      if it.Open? { SortedBindings(it); }
      assert SortItems(items)[1..] == SortItems(items[1..]);
      SortItemsUnmasked(items[1..], RenderedAfter(it, rendered));
    }
  }

  // ------------------------------------------------------------ readable output

  lemma {:induction false} JoinChars(prefix: string, local: string)
    requires NameChars(Join(prefix, local)) && prefix != ""
    ensures NameChars(DeclKey(prefix))
  {
    forall c | c in prefix ensures c in Join(prefix, local) {}
    forall c | c in DeclKey(prefix) ensures !IsMarkup(c) {
      assert c in "xmlns:" || c in prefix;
    }
  }

  lemma {:induction false} TokenReadable(it: Item, rendered: Scope)
    requires Sound(it) && ItemSpelled(it) && (it.Chars? ==> it.text != "")
    ensures Readable(TokenOf(it, rendered))
  {
    if it.Open? {
      var t := TokenOf(it, rendered);
      SortedAttrs(it.attrs);
      forall i | 0 <= i < |t.attrs| ensures NameChars(Join(t.attrs[i].prefix, t.attrs[i].local)) {
        assert t.attrs[i] in it.attrs;
      }
      forall i | 0 <= i < |t.decls| ensures NameChars(DeclKey(t.decls[i].prefix)) {
        var p := t.decls[i].prefix;
        assert p in Missing(Used(it), rendered);
        BindingsDomain(it.prefix, it.uri, it.attrs, p);
        if p == it.prefix {
          JoinChars(p, it.local);
        } else {
          var k :| 0 <= k < |it.attrs| && it.attrs[k].prefix == p;
          assert it.attrs[k] in it.attrs;
          JoinChars(p, it.attrs[k].local);
        }
      }
    }
  }

  lemma {:induction false} EmitReadable(items: seq<Item>, rendered: seq<Scope>, wc: bool)
    requires Clean(items, wc) && TextApart(items)
    ensures ReadableAll(Emit(items, rendered)) && |Emit(items, rendered)| == |items|
    ensures items != [] ==> (Emit(items, rendered)[0].TextRun? <==> items[0].Chars?)
  {
    if items != [] {
      TokenReadable(items[0], Top(rendered));
      assert Clean(items[1..], wc) && TextApart(items[1..]);
      EmitReadable(items[1..], RenderedAfter(items[0], rendered), wc);
      var t, ts := TokenOf(items[0], Top(rendered)), Emit(items[1..], RenderedAfter(items[0], rendered));
      assert Emit(items, rendered) == [t] + ts;
      if ts != [] { assert !(items[0].Chars? && items[1].Chars?); assert items[1..][0] == items[1]; }
    }
  }

  /** Attributes in order, text maximal. */
  function Normal(items: seq<Item>): seq<Item> {
    SortItems(JoinText(items))
  }

  lemma {:induction false} NormalClean(items: seq<Item>, wc: bool)
    requires Clean(items, wc) && NothingMasked(items, BARE)
    ensures Clean(Normal(items), wc) && TextApart(Normal(items)) && NothingMasked(Normal(items), BARE)
  {
    var joined := JoinText(items);
    CleanAsMembers(items, wc);
    JoinTextSound(items, wc);
    JoinTextSpelled(items);
    CleanAsMembers(joined, wc);
    JoinTextApart(items);
    JoinTextUnmasked(items, BARE);
    SortItemsClean(joined, wc);
    SortItemsIndexed(joined);
    SortItemsUnmasked(joined, BARE);
  }

  lemma {:induction false} CleanAsMembers(items: seq<Item>, wc: bool)
    ensures Clean(items, wc) <==> forall it :: it in items ==> Sound(it) && ItemSpelled(it) && (it.Remark? ==> wc)
  {
    if Clean(items, wc) {
      forall it | it in items ensures Sound(it) && ItemSpelled(it) && (it.Remark? ==> wc) {
        var i :| 0 <= i < |items| && items[i] == it;
      }
    }
  }

  /** Items are written as their normal form is. */
  lemma {:induction false} NormalSerialised(items: seq<Item>, wc: bool)
    requires Clean(items, wc)
    ensures Serialise(Emit(Normal(items), BARE)) == Serialise(Emit(items, BARE))
  {
    CleanAsMembers(items, wc);
    JoinTextSerialised(items, BARE);
    JoinTextSound(items, wc);
    EmitSorted(JoinText(items), BARE);
  }

  /** The bytes carry the items in normal form: reading them, with no other declarations than
      those they hold, gives it back. */
  lemma {:induction false} BytesCarryItems(items: seq<Item>, wc: bool)
    requires Clean(items, wc) && NothingMasked(items, BARE)
    ensures Resolve(Read(Serialise(Emit(items, BARE))), BARE, wc) == Normal(items)
  {
    var normal := Normal(items);
    NormalClean(items, wc);
    NormalSerialised(items, wc);
    EmitReadable(normal, BARE, wc);
    ReadSerialised(Emit(normal, BARE));
    CleanAsMembers(normal, wc);
    MeaningPreserved(normal, BARE, wc);
    SortItemsTwice(JoinText(items));
  }

  /** What a parsed stream resolves to in any scopes that bind no prefix to the empty URI. */
  lemma {:induction false} ResolvedClean(evs: seq<Event>, scope: Scope, wc: bool)
    requires Parsed(evs) && Covers(scope, map[])
    ensures var items := Resolve(evs, [scope], wc); Clean(items, wc) && NothingMasked(items, BARE)
  {
    ResolvedSound(evs, [scope], wc);
    ItemsSpelled(evs, [scope], wc);
    WellFormedUnmasked(evs, [scope], BARE, wc);
    CleanAsMembers(Resolve(evs, [scope], wc), wc);
  }

  // ------------------------------------------------------------------ theorems

  /** The bytes carry the resolved items. */
  lemma {:induction false} BytesCarryResolved(evs: seq<Event>, wc: bool)
    requires Parsed(evs)
    ensures Resolve(Read(Canonical(evs, wc)), BARE, wc) == ResolvedItems(evs, wc)
  {
    ResolvedClean(evs, map[], wc);
    BytesCarryItems(Resolve(evs, BARE, wc), wc);
  }

  /** Two documents have the same canonical bytes exactly when they resolve to the same items. */
  lemma {:induction false} SameBytesIffSameItems(a: seq<Event>, b: seq<Event>, wc: bool)
    requires Parsed(a) && Parsed(b)
    ensures Canonical(a, wc) == Canonical(b, wc) <==> ResolvedItems(a, wc) == ResolvedItems(b, wc)
  {
    BytesCarryResolved(a, wc);
    BytesCarryResolved(b, wc);
    CanonicalOfResolved(a, wc);
    CanonicalOfResolved(b, wc);
  }

  /** Canonicalising the bytes of the output returns them. */
  lemma {:induction false} BytesIdempotent(evs: seq<Event>, wc: bool)
    requires Parsed(evs)
    ensures Canonical(Read(Canonical(evs, wc)), wc) == Canonical(evs, wc)
  {
    BytesCarryResolved(evs, wc);
    CanonicalOfResolved(evs, wc);
  }
}
