/** Locating an element in the byte stream by counting same-name tags only, and cutting the
    signature out. */
module Spans {
  import opened Basics
  import opened XmlModel

  /** An event with the bytes it was read from (attribute values as written). */
  datatype Piece = Piece(ev: Event, raw: string)

  datatype Span = Span(start: nat, end: nat)

  function Raw(ps: seq<Piece>): string {
    if ps == [] then "" else ps[0].raw + Raw(ps[1..])
  }

  /** What is looked for: a local name, or a value of the `ID` attribute. */
  datatype Query = ByLocal(local: string) | ById(id: string)

  predicate IsOpening(e: Event) { e.Start? || e.Empty? }

  /** The name behind the last ':'. */
  function LocalName(name: string): string {
    if name == "" || name[|name| - 1] == ':' then ""
    else LocalName(name[..|name| - 1]) + [name[|name| - 1]]
  }

  lemma {:induction false} LocalNameBehind(a: string, local: string)
    requires ':' !in local && (a == "" || a[|a| - 1] == ':')
    ensures LocalName(a + local) == local
  {
    var n := |local| - 1;
    if n < 0 {
      assert a + local == a;
    } else {
      LocalNameBehind(a, local[..n]);
      assert (a + local)[..|a| + n] == a + local[..n];
      assert (a + local)[|a| + n] == local[n] && local[n] in local;
      assert local == local[..n] + [local[n]];
    }
  }

  /** `local_eq` and `split_qname` agree on what the local name is. */
  lemma {:induction false} LocalNameIsLocal(name: string)
    ensures LocalName(name) == SplitQName(name).local
  {
    var q := SplitQName(name);
    var a := if name == ":" + q.local then ":" else if q.prefix == "" then "" else q.prefix + ":";
    assert name == a + q.local;
    LocalNameBehind(a, q.local);
  }

  predicate LocalEq(name: string, local: string) { LocalName(name) == local }

  predicate Opens(q: Query, e: Event) {
    IsOpening(e) &&
    match q
    case ByLocal(local) => LocalEq(e.name, local)
    case ById(id) => Attr("ID", id) in e.attrs
  }

  /** Whether a tag counts towards the depth inside an element called `root`. */
  predicate Counts(q: Query, root: string, name: string) {
    match q
    case ByLocal(local) => LocalEq(name, local)
    case ById(_) => name == root
  }

  // ---------------------------------------------------------------- specification

  /** A well-nested stream, children and following siblings. */
  datatype Forest =
    | Nil
    | Elem(start: Piece, kids: Forest, end: Piece, next: Forest)
    | Leaf(piece: Piece, next: Forest)

  predicate WellNested(f: Forest) {
    match f
    case Nil => true
    case Elem(start, kids, end, next) =>
      start.ev.Start? && end.ev == End(start.ev.name) && WellNested(kids) && WellNested(next)
    case Leaf(p, next) => !p.ev.Start? && !p.ev.End? && WellNested(next)
  }

  function Wrap(start: Piece, body: seq<Piece>, end: Piece): (ps: seq<Piece>)
    ensures |ps| == |body| + 2
  {
    [start] + body + [end]
  }

  function Flatten(f: Forest): seq<Piece> {
    match f
    case Nil => []
    case Elem(start, kids, end, next) => Wrap(start, Flatten(kids), end) + Flatten(next)
    case Leaf(p, next) => [p] + Flatten(next)
  }

  /** The first element in document order that answers the query, as positions from its
      start-tag up to behind its own end-tag. */
  function First(q: Query, f: Forest, at: nat): Option<Span> {
    match f
    case Nil => None
    case Leaf(p, next) =>
      if Opens(q, p.ev) then Some(Span(at, at + 1)) else First(q, next, at + 1)
    case Elem(start, kids, end, next) =>
      var width := |Flatten(kids)| + 2;
      if Opens(q, start.ev) then Some(Span(at, at + width))
      else
        var inside := First(q, kids, at + 1);
        if inside.Some? then inside else First(q, next, at + width)
  }

  /** The forest without that element. */
  function Remove(q: Query, f: Forest): Forest {
    match f
    case Nil => Nil
    case Leaf(p, next) => if Opens(q, p.ev) then next else Leaf(p, Remove(q, next))
    case Elem(start, kids, end, next) =>
      if Opens(q, start.ev) then next
      else if First(q, kids, 0).Some? then Elem(start, Remove(q, kids), end, next)
      else Elem(start, kids, end, Remove(q, next))
  }

  // -------------------------------------------------------------- the scanning loop

  datatype Scan = Searching | Inside(from: nat, root: string, depth: nat)

  datatype Turn = Goes(scan: Scan) | Found(span: Span)

  /** One turn of the loop on the event at position `at`. */
  function Step(q: Query, e: Event, at: nat, scan: Scan): Turn {
    match scan
    case Searching =>
      if !Opens(q, e) then Goes(scan)
      else if e.Empty? then Found(Span(at, at + 1))
      else Goes(Inside(at, e.name, 1))
    case Inside(from, root, depth) =>
      if e.Start? && Counts(q, root, e.name) then Goes(Inside(from, root, depth + 1))
      else if e.End? && Counts(q, root, e.name) then
        if depth <= 1 then Found(Span(from, at + 1)) else Goes(Inside(from, root, depth - 1))
      else Goes(scan)
  }

  function Run(q: Query, ps: seq<Piece>, at: nat, scan: Scan): Option<Span> {
    if ps == [] then None
    else
      match Step(q, ps[0].ev, at, scan)
      case Found(span) => Some(span)
      case Goes(scan') => Run(q, ps[1..], at + 1, scan')
  }

  lemma {:induction false} RunCons(q: Query, p: Piece, ps: seq<Piece>, at: nat, scan: Scan)
    ensures Run(q, [p] + ps, at, scan)
            == match Step(q, p.ev, at, scan)
               case Found(span) => Some(span)
               case Goes(scan') => Run(q, ps, at + 1, scan')
  {
    assert ([p] + ps)[1..] == ps;
  }

  /** A leaf is one turn: it is found, or leaves the scan as it is. */
  lemma {:induction false} RunLeaf(q: Query, f: Forest, rest: seq<Piece>, at: nat, scan: Scan)
    requires WellNested(f) && f.Leaf?
    ensures Run(q, Flatten(f) + rest, at, scan)
            == if scan.Searching? && Opens(q, f.piece.ev) then Some(Span(at, at + 1))
               else Run(q, Flatten(f.next) + rest, at + 1, scan)
  {
    Assoc([f.piece], Flatten(f.next), rest);
    RunCons(q, f.piece, Flatten(f.next) + rest, at, scan);
  }

  lemma {:induction false} FlattenElem(f: Forest, rest: seq<Piece>)
    requires f.Elem?
    ensures Flatten(f) + rest == [f.start] + (Flatten(f.kids) + ([f.end] + (Flatten(f.next) + rest)))
  {
    WrapShape(f.start, Flatten(f.kids), f.end, Flatten(f.next) + rest);
  }

  lemma {:induction false} WrapShape(start: Piece, body: seq<Piece>, end: Piece, rest: seq<Piece>)
    ensures Wrap(start, body, end) + rest == [start] + (body + ([end] + rest))
  {}

  /** Inside an element the counter is back where it was after any well-nested content. */
  lemma {:induction false} CounterBalances(q: Query, f: Forest, rest: seq<Piece>, at: nat, scan: Scan)
    requires WellNested(f) && scan.Inside? && scan.depth >= 1
    ensures Run(q, Flatten(f) + rest, at, scan) == Run(q, rest, at + |Flatten(f)|, scan)
  {
    match f
    case Nil => assert [] + rest == rest;
    case Leaf(p, next) =>
      RunLeaf(q, f, rest, at, scan);
      CounterBalances(q, next, rest, at + 1, scan);
    case Elem(start, kids, end, next) =>
      ElemBalances(q, f, rest, at, scan);
      CounterBalances(q, kids, [end] + (Flatten(next) + rest), at + 1, Entered(q, scan, start.ev.name));
      CounterBalances(q, next, rest, at + |Flatten(kids)| + 2, scan);
  }

  /** Over the start-tag into an element, and over its end-tag out of it again. */
  lemma {:induction false} ElemBalances(q: Query, f: Forest, rest: seq<Piece>, at: nat, scan: Scan)
    requires WellNested(f) && f.Elem? && scan.Inside? && scan.depth >= 1
    ensures var after, inner := Flatten(f.next) + rest, Entered(q, scan, f.start.ev.name);
            && Run(q, Flatten(f) + rest, at, scan) == Run(q, Flatten(f.kids) + ([f.end] + after), at + 1, inner)
            && Run(q, [f.end] + after, at + 1 + |Flatten(f.kids)|, inner)
               == Run(q, after, at + |Flatten(f.kids)| + 2, scan)
  {
    var after, inner := Flatten(f.next) + rest, Entered(q, scan, f.start.ev.name);
    FlattenElem(f, rest);
    TagsBalance(q, f.start, f.end, at, at + 1 + |Flatten(f.kids)|, scan);
    RunCons(q, f.start, Flatten(f.kids) + ([f.end] + after), at, scan);
    RunCons(q, f.end, after, at + 1 + |Flatten(f.kids)|, inner);
  }

  /** The scan inside an element with this name. */
  function Entered(q: Query, scan: Scan, name: string): Scan
    requires scan.Inside?
  {
    if Counts(q, scan.root, name) then scan.(depth := scan.depth + 1) else scan
  }

  /** An end-tag undoes what its start-tag does to the counter. */
  lemma {:induction false} TagsBalance(q: Query, start: Piece, end: Piece, at: nat, later: nat, scan: Scan)
    requires start.ev.Start? && end.ev == End(start.ev.name) && scan.Inside? && scan.depth >= 1
    ensures Step(q, start.ev, at, scan) == Goes(Entered(q, scan, start.ev.name))
    ensures Step(q, end.ev, later, Entered(q, scan, start.ev.name)) == Goes(scan)
  {}

  /** A start-tag counts towards its own depth, so its own end-tag closes the span. */
  lemma {:induction false} OpensCounts(q: Query, e: Event)
    requires Opens(q, e)
    ensures Counts(q, e.name, e.name)
  {}

  /** An element that answers the query is found with its own end-tag. */
  lemma {:induction false} SearchOpens(q: Query, f: Forest, rest: seq<Piece>, at: nat)
    requires WellNested(f) && f.Elem? && Opens(q, f.start.ev)
    ensures Run(q, Flatten(f) + rest, at, Searching) == Some(Span(at, at + |Flatten(f.kids)| + 2))
  {
    var after, inner := Flatten(f.next) + rest, Inside(at, f.start.ev.name, 1);
    FlattenElem(f, rest);
    RunCons(q, f.start, Flatten(f.kids) + ([f.end] + after), at, Searching);
    OpensCounts(q, f.start.ev);
    CounterBalances(q, f.kids, [f.end] + after, at + 1, inner);
    RunCons(q, f.end, after, at + 1 + |Flatten(f.kids)|, inner);
  }

  /** Searching through well-nested content finds the first element with its true end. */
  lemma {:induction false} SearchFinds(q: Query, f: Forest, rest: seq<Piece>, at: nat)
    requires WellNested(f)
    ensures Run(q, Flatten(f) + rest, at, Searching)
            == if First(q, f, at).Some? then First(q, f, at) else Run(q, rest, at + |Flatten(f)|, Searching)
  {
    match f
    case Nil => assert [] + rest == rest;
    case Leaf(p, next) =>
      RunLeaf(q, f, rest, at, Searching);
      if !Opens(q, p.ev) { SearchFinds(q, next, rest, at + 1); }
    case Elem(start, kids, end, next) =>
      if Opens(q, start.ev) {
        SearchOpens(q, f, rest, at);
      } else {
        var k := |Flatten(kids)|;
        SearchPasses(q, f, rest, at);
        SearchFinds(q, kids, [end] + (Flatten(next) + rest), at + 1);
        SearchFinds(q, next, rest, at + k + 2);
        FirstInside(q, f, at);
      }
  }

  /** Where the first answer is, in an element that is not one itself. */
  lemma {:induction false} FirstInside(q: Query, f: Forest, at: nat)
    requires f.Elem? && !Opens(q, f.start.ev)
    ensures var inside := First(q, f.kids, at + 1);
            First(q, f, at) == if inside.Some? then inside else First(q, f.next, at + |Flatten(f.kids)| + 2)
    ensures |Flatten(f)| == |Flatten(f.kids)| + 2 + |Flatten(f.next)|
  {}

  /** An element that does not answer is searched inside, then behind. */
  lemma {:induction false} SearchPasses(q: Query, f: Forest, rest: seq<Piece>, at: nat)
    requires WellNested(f) && f.Elem? && !Opens(q, f.start.ev)
    ensures var after := Flatten(f.next) + rest;
            && Run(q, Flatten(f) + rest, at, Searching) == Run(q, Flatten(f.kids) + ([f.end] + after), at + 1, Searching)
            && Run(q, [f.end] + after, at + 1 + |Flatten(f.kids)|, Searching)
               == Run(q, after, at + |Flatten(f.kids)| + 2, Searching)
  {
    var after := Flatten(f.next) + rest;
    FlattenElem(f, rest);
    RunCons(q, f.start, Flatten(f.kids) + ([f.end] + after), at, Searching);
    RunCons(q, f.end, after, at + 1 + |Flatten(f.kids)|, Searching);
  }

  /** On every well-nested stream the scan finds the first element, end-tag included. */
  lemma {:induction false} ScanCorrect(q: Query, f: Forest)
    requires WellNested(f)
    ensures Run(q, Flatten(f), 0, Searching) == First(q, f, 0)
  {
    SearchFinds(q, f, [], 0);
    assert Flatten(f) + [] == Flatten(f);
  }

  lemma {:induction false} FirstShifts(q: Query, f: Forest, at: nat)
    ensures First(q, f, at).Some? <==> First(q, f, 0).Some?
    ensures First(q, f, 0).Some? ==>
              First(q, f, at).value == Span(at + First(q, f, 0).value.start, at + First(q, f, 0).value.end)
    ensures First(q, f, 0).Some? ==> First(q, f, 0).value.start < First(q, f, 0).value.end <= |Flatten(f)|
  {
    match f
    case Nil =>
    case Leaf(p, next) =>
      FirstShifts(q, next, at + 1);
      FirstShifts(q, next, 1);
    case Elem(start, kids, end, next) =>
      var width := |Flatten(kids)| + 2;
      FirstShifts(q, kids, at + 1);
      FirstShifts(q, kids, 1);
      FirstShifts(q, next, at + width);
      FirstShifts(q, next, width);
  }

  /** `r` is `ps` with the span cut out. */
  ghost predicate IsCut(ps: seq<Piece>, s: Span, r: seq<Piece>) {
    s.start < s.end <= |ps| && r == ps[..s.start] + ps[s.end..]
  }

  lemma {:induction false} CutFront(a: seq<Piece>, b: seq<Piece>)
    requires a != []
    ensures IsCut(a + b, Span(0, |a|), b)
  {
    assert (a + b)[..0] + (a + b)[|a|..] == b;
  }

  lemma {:induction false} CutBehind(a: seq<Piece>, b: seq<Piece>, s: Span, r: seq<Piece>)
    requires IsCut(b, s, r)
    ensures IsCut(a + b, Span(|a| + s.start, |a| + s.end), a + r)
  {
    assert (a + b)[..|a| + s.start] == a + b[..s.start];
    assert (a + b)[|a| + s.end..] == b[s.end..];
  }

  lemma {:induction false} CutBefore(a: seq<Piece>, b: seq<Piece>, s: Span, r: seq<Piece>)
    requires IsCut(a, s, r)
    ensures IsCut(a + b, s, r + b)
  {
    assert (a + b)[..s.start] == a[..s.start];
    assert (a + b)[s.end..] == a[s.end..] + b;
  }

  lemma {:induction false} CutWrapped(start: Piece, body: seq<Piece>, end: Piece, s: Span, r: seq<Piece>)
    requires IsCut(body, s, r)
    ensures IsCut(Wrap(start, body, end), Span(1 + s.start, 1 + s.end), Wrap(start, r, end))
  {
    CutBehind([start], body, s, r);
    CutBefore([start] + body, [end], Span(1 + s.start, 1 + s.end), [start] + r);
  }

  /** Cutting the span out removes exactly that element and leaves a well-nested stream. */
  lemma {:induction false} RemoveCuts(q: Query, f: Forest)
    requires WellNested(f) && First(q, f, 0).Some?
    ensures WellNested(Remove(q, f))
    ensures IsCut(Flatten(f), First(q, f, 0).value, Flatten(Remove(q, f)))
  {
    match f
    case Leaf(p, next) =>
      FirstShifts(q, next, 1);
      if Opens(q, p.ev) {
        CutFront([p], Flatten(next));
      } else {
        RemoveCuts(q, next);
        CutBehind([p], Flatten(next), First(q, next, 0).value, Flatten(Remove(q, next)));
      }
    case Elem(start, kids, end, next) =>
      var w := Wrap(start, Flatten(kids), end);
      FirstShifts(q, kids, 1);
      FirstShifts(q, next, |w|);
      if Opens(q, start.ev) {
        CutFront(w, Flatten(next));
      } else if First(q, kids, 0).Some? {
        RemoveCuts(q, kids);
        RemoveFromKids(q, f);
      } else {
        RemoveCuts(q, next);
        RemoveFromNext(q, f);
      }
  }

  /** Where nothing answers, nothing is removed. */
  lemma {:induction false} RemoveNone(q: Query, f: Forest)
    requires First(q, f, 0).None?
    ensures Remove(q, f) == f
  {
    match f
    case Nil =>
    case Leaf(p, next) =>
      FirstShifts(q, next, 1);
      RemoveNone(q, next);
    case Elem(start, kids, end, next) =>
      FirstShifts(q, kids, 1);
      FirstShifts(q, next, |Flatten(kids)| + 2);
      RemoveNone(q, next);
  }

  lemma {:induction false} RemoveFromKids(q: Query, f: Forest)
    requires f.Elem? && !Opens(q, f.start.ev) && First(q, f.kids, 0).Some?
    requires IsCut(Flatten(f.kids), First(q, f.kids, 0).value, Flatten(Remove(q, f.kids)))
    ensures First(q, f, 0).Some? && IsCut(Flatten(f), First(q, f, 0).value, Flatten(Remove(q, f)))
  {
    var k, k' := Flatten(f.kids), Flatten(Remove(q, f.kids));
    FirstShifts(q, f.kids, 1);
    CutWrapped(f.start, k, f.end, First(q, f.kids, 0).value, k');
    CutBefore(Wrap(f.start, k, f.end), Flatten(f.next), First(q, f.kids, 1).value, Wrap(f.start, k', f.end));
  }

  lemma {:induction false} RemoveFromNext(q: Query, f: Forest)
    requires f.Elem? && !Opens(q, f.start.ev) && First(q, f.kids, 0).None? && First(q, f.next, 0).Some?
    requires IsCut(Flatten(f.next), First(q, f.next, 0).value, Flatten(Remove(q, f.next)))
    ensures First(q, f, 0).Some? && IsCut(Flatten(f), First(q, f, 0).value, Flatten(Remove(q, f)))
  {
    var w := Wrap(f.start, Flatten(f.kids), f.end);
    FirstShifts(q, f.kids, 1);
    FirstShifts(q, f.next, |w|);
    CutBehind(w, Flatten(f.next), First(q, f.next, 0).value, Flatten(Remove(q, f.next)));
  }

  /** The element found, alone. */
  function FoundElement(q: Query, f: Forest): Forest {
    match f
    case Nil => Nil
    case Leaf(p, next) => if Opens(q, p.ev) then Leaf(p, Nil) else FoundElement(q, next)
    case Elem(start, kids, end, next) =>
      if Opens(q, start.ev) then Elem(start, kids, end, Nil)
      else if First(q, kids, 0).Some? then FoundElement(q, kids)
      else FoundElement(q, next)
  }

  /** `r` is what the span covers. */
  ghost predicate IsPart(ps: seq<Piece>, s: Span, r: seq<Piece>) {
    s.start < s.end <= |ps| && r == ps[s.start..s.end]
  }

  lemma {:induction false} PartWithin(a: seq<Piece>, b: seq<Piece>, c: seq<Piece>, s: Span, r: seq<Piece>)
    requires IsPart(b, s, r)
    ensures IsPart(a + (b + c), Span(|a| + s.start, |a| + s.end), r)
  {
    assert (a + (b + c))[|a| + s.start..|a| + s.end] == b[s.start..s.end];
  }

  lemma {:induction false} PartBehind(a: seq<Piece>, b: seq<Piece>, s: Span, r: seq<Piece>)
    requires IsPart(b, s, r)
    ensures IsPart(a + b, Span(|a| + s.start, |a| + s.end), r)
  {
    PartWithin(a, b, [], s, r);
    assert b + [] == b;
  }

  lemma {:induction false} PartFront(a: seq<Piece>, b: seq<Piece>)
    requires a != []
    ensures IsPart(a + b, Span(0, |a|), a + [])
  {
    assert (a + b)[0..|a|] == a + [];
  }

  /** The span covers exactly the element found, which is well-nested. */
  lemma {:induction false} FoundIsPart(q: Query, f: Forest)
    requires WellNested(f) && First(q, f, 0).Some?
    ensures WellNested(FoundElement(q, f))
    ensures IsPart(Flatten(f), First(q, f, 0).value, Flatten(FoundElement(q, f)))
  {
    match f
    case Leaf(p, next) =>
      FirstShifts(q, next, 1);
      if Opens(q, p.ev) {
        PartFront([p], Flatten(next));
      } else {
        FoundIsPart(q, next);
        PartBehind([p], Flatten(next), First(q, next, 0).value, Flatten(FoundElement(q, next)));
      }
    case Elem(start, kids, end, next) =>
      if Opens(q, start.ev) {
        PartFront(Wrap(start, Flatten(kids), end), Flatten(next));
      } else if First(q, kids, 0).Some? {
        FoundIsPart(q, kids);
        FoundInKids(q, f);
      } else {
        NextFound(q, f);
        FoundIsPart(q, next);
        FoundInNext(q, f);
      }
  }

  lemma {:induction false} FoundInKids(q: Query, f: Forest)
    requires f.Elem? && !Opens(q, f.start.ev) && First(q, f.kids, 0).Some?
    requires IsPart(Flatten(f.kids), First(q, f.kids, 0).value, Flatten(FoundElement(q, f.kids)))
    ensures First(q, f, 0).Some? && IsPart(Flatten(f), First(q, f, 0).value, Flatten(FoundElement(q, f)))
  {
    FirstShifts(q, f.kids, 1);
    WrapShape(f.start, Flatten(f.kids), f.end, Flatten(f.next));
    PartWithin([f.start], Flatten(f.kids), [f.end] + Flatten(f.next), First(q, f.kids, 0).value, Flatten(FoundElement(q, f.kids)));
  }

  lemma {:induction false} FoundInNext(q: Query, f: Forest)
    requires f.Elem? && !Opens(q, f.start.ev) && First(q, f.kids, 0).None? && First(q, f.next, 0).Some?
    requires IsPart(Flatten(f.next), First(q, f.next, 0).value, Flatten(FoundElement(q, f.next)))
    ensures First(q, f, 0).Some? && IsPart(Flatten(f), First(q, f, 0).value, Flatten(FoundElement(q, f)))
  {
    var w := Wrap(f.start, Flatten(f.kids), f.end);
    FirstShifts(q, f.kids, 1);
    FirstShifts(q, f.next, |w|);
    PartBehind(w, Flatten(f.next), First(q, f.next, 0).value, Flatten(FoundElement(q, f.next)));
  }

  lemma {:induction false} NextFound(q: Query, f: Forest)
    requires f.Elem? && !Opens(q, f.start.ev) && First(q, f.kids, 0).None? && First(q, f, 0).Some?
    ensures First(q, f.next, 0).Some?
  {
    FirstShifts(q, f.kids, 1);
    FirstShifts(q, f.next, |Flatten(f.kids)| + 2);
  }

  /** Nothing before the found element answers the query, and the element itself does. */
  ghost predicate IsFirst(q: Query, ps: seq<Piece>, r: Option<Span>) {
    && (r.Some? ==> r.value.start < |ps| && Opens(q, ps[r.value.start].ev))
    && (forall i :: 0 <= i < |ps| && (r.Some? ==> i < r.value.start) ==> !Opens(q, ps[i].ev))
  }

  /** Prepending pieces that do not answer the query shifts the answer. */
  lemma {:induction false} IsFirstBehind(q: Query, a: seq<Piece>, ps: seq<Piece>, r: Option<Span>, r': Option<Span>)
    requires IsFirst(q, ps, r) && IsFirst(q, a, None)
    requires r.Some? <==> r'.Some?
    requires r.Some? ==> r'.value.start == |a| + r.value.start
    ensures IsFirst(q, a + ps, r')
  {
    forall i | 0 <= i < |a + ps| && (r'.Some? ==> i < r'.value.start) ensures !Opens(q, (a + ps)[i].ev) {
      if i < |a| { assert (a + ps)[i] == a[i]; } else { assert (a + ps)[i] == ps[i - |a|]; }
    }
  }

  lemma {:induction false} IsFirstBefore(q: Query, ps: seq<Piece>, b: seq<Piece>, r: Option<Span>)
    requires IsFirst(q, ps, r) && r.Some?
    ensures IsFirst(q, ps + b, r)
  {
    forall i | 0 <= i < |ps + b| && i < r.value.start ensures !Opens(q, (ps + b)[i].ev) {
      assert (ps + b)[i] == ps[i];
    }
  }

  lemma {:induction false} FirstIsFirst(q: Query, f: Forest)
    requires WellNested(f)
    ensures IsFirst(q, Flatten(f), First(q, f, 0))
  {
    match f
    case Nil =>
    case Leaf(p, next) =>
      FirstIsFirst(q, next);
      FirstShifts(q, next, 1);
      if !Opens(q, p.ev) { IsFirstBehind(q, [p], Flatten(next), First(q, next, 0), First(q, f, 0)); }
    case Elem(start, kids, end, next) =>
      WrapShape(start, Flatten(kids), end, Flatten(next));
      if !Opens(q, start.ev) {
        FirstIsFirst(q, kids);
        FirstIsFirst(q, next);
        if First(q, kids, 0).Some? {
          FirstAmongKids(q, f);
        } else {
          FirstBehindKids(q, f);
        }
      }
  }

  lemma {:induction false} FirstAmongKids(q: Query, f: Forest)
    requires WellNested(f) && f.Elem? && !Opens(q, f.start.ev) && First(q, f.kids, 0).Some?
    requires IsFirst(q, Flatten(f.kids), First(q, f.kids, 0))
    ensures IsFirst(q, [f.start] + (Flatten(f.kids) + ([f.end] + Flatten(f.next))), First(q, f, 0))
  {
    var k, after, r := Flatten(f.kids), [f.end] + Flatten(f.next), First(q, f.kids, 0);
    FirstShifts(q, f.kids, 1);
    IsFirstBefore(q, k, after, r);
    IsFirstBehind(q, [f.start], k + after, r, First(q, f, 0));
  }

  lemma {:induction false} FirstBehindKids(q: Query, f: Forest)
    requires WellNested(f) && f.Elem? && !Opens(q, f.start.ev) && First(q, f.kids, 0).None?
    requires IsFirst(q, Flatten(f.kids), None) && IsFirst(q, Flatten(f.next), First(q, f.next, 0))
    ensures IsFirst(q, [f.start] + (Flatten(f.kids) + ([f.end] + Flatten(f.next))), First(q, f, 0))
  {
    var k, n := Flatten(f.kids), Flatten(f.next);
    FirstShifts(q, f.kids, 1);
    FirstShifts(q, f.next, 1);
    FirstShifts(q, f.next, |k| + 1);
    FirstShifts(q, f.next, |k| + 2);
    IsFirstBehind(q, [f.end], n, First(q, f.next, 0), First(q, f.next, 1));
    IsFirstBehind(q, k, [f.end] + n, First(q, f.next, 1), First(q, f.next, |k| + 1));
    IsFirstBehind(q, [f.start], k + ([f.end] + n), First(q, f.next, |k| + 1), First(q, f, 0));
  }

  // -------------------------------------------------- the answer, read off the stream

  /** An opening tag whose name, split as everywhere, has this local name. */
  ghost predicate HasLocal(e: Event, local: string) {
    (e.Start? || e.Empty?) && SplitQName(e.name).local == local
  }

  /** An opening tag with this value of the attribute `ID`. */
  ghost predicate HasId(e: Event, id: string) {
    (e.Start? || e.Empty?) && Attr("ID", id) in e.attrs
  }

  lemma {:induction false} OpensIs(q: Query, e: Event)
    ensures Opens(q, e) <==> if q.ByLocal? then HasLocal(e, q.local) else HasId(e, q.id)
  {
    if e.Start? || e.Empty? { LocalNameIsLocal(e.name); }
  }

  ghost predicate OneElement(g: Forest) {
    WellNested(g) && ((g.Elem? && g.next.Nil?) || (g.Leaf? && g.piece.ev.Empty? && g.next.Nil?))
  }

  /** Exactly one element, from its start-tag to its own end-tag. */
  ghost predicate IsOneElement(ps: seq<Piece>) {
    exists g :: OneElement(g) && Flatten(g) == ps
  }

  /** Position `i` starts the first element with this local name, which ends before `j`. */
  ghost predicate FirstWithLocal(ps: seq<Piece>, local: string, i: nat, j: nat) {
    && i < j <= |ps| && HasLocal(ps[i].ev, local) && IsOneElement(ps[i..j])
    && forall k :: 0 <= k < i ==> !HasLocal(ps[k].ev, local)
  }

  ghost predicate FirstWithId(ps: seq<Piece>, id: string, i: nat, j: nat) {
    && i < j <= |ps| && HasId(ps[i].ev, id) && IsOneElement(ps[i..j])
    && forall k :: 0 <= k < i ==> !HasId(ps[k].ev, id)
  }

  ghost predicate IsDocument(ps: seq<Piece>) {
    exists f :: WellNested(f) && Flatten(f) == ps
  }

  lemma {:induction false} FoundIsOne(q: Query, f: Forest)
    requires WellNested(f) && First(q, f, 0).Some?
    ensures OneElement(FoundElement(q, f))
  {
    match f
    case Leaf(p, next) =>
      FirstShifts(q, next, 1);
      if !Opens(q, p.ev) { FoundIsOne(q, next); }
    case Elem(start, kids, end, next) =>
      if !Opens(q, start.ev) {
        if First(q, kids, 0).Some? {
          FoundIsOne(q, kids);
        } else {
          NextFound(q, f);
          FoundIsOne(q, next);
        }
      }
  }

  /** What the search in a document means: an element that answers, none before it; or none. */
  ghost predicate Answers(q: Query, ps: seq<Piece>, s: Option<Span>) {
    if s.None? then forall k :: 0 <= k < |ps| ==> !Opens(q, ps[k].ev)
    else
      && s.value.start < s.value.end <= |ps| && Opens(q, ps[s.value.start].ev)
      && IsOneElement(ps[s.value.start..s.value.end])
      && forall k :: 0 <= k < s.value.start ==> !Opens(q, ps[k].ev)
  }

  lemma {:induction false} FirstAnswers(q: Query, f: Forest)
    requires WellNested(f)
    ensures Answers(q, Flatten(f), First(q, f, 0))
  {
    FirstIsFirst(q, f);
    if First(q, f, 0).Some? {
      FoundIsPart(q, f);
      FoundIsOne(q, f);
    }
  }

  /** So for what the scan yields on the pieces of a document. */
  lemma {:induction false} ScanMeans(q: Query, ps: seq<Piece>)
    ensures IsDocument(ps) ==> Answers(q, ps, Run(q, ps, 0, Searching))
  {
    if f :| WellNested(f) && Flatten(f) == ps {
      ScanCorrect(q, f);
      FirstAnswers(q, f);
    }
  }

  lemma {:induction false} AnswersLocal(ps: seq<Piece>, local: string, s: Option<Span>)
    requires Answers(ByLocal(local), ps, s)
    ensures s.None? ==> forall k :: 0 <= k < |ps| ==> !HasLocal(ps[k].ev, local)
    ensures s.Some? ==> FirstWithLocal(ps, local, s.value.start, s.value.end)
  {
    forall k | 0 <= k < |ps| ensures Opens(ByLocal(local), ps[k].ev) <==> HasLocal(ps[k].ev, local) {
      OpensIs(ByLocal(local), ps[k].ev);
    }
  }

  lemma {:induction false} AnswersId(ps: seq<Piece>, id: string, s: Option<Span>)
    requires Answers(ById(id), ps, s)
    ensures s.None? ==> forall k :: 0 <= k < |ps| ==> !HasId(ps[k].ev, id)
    ensures s.Some? ==> FirstWithId(ps, id, s.value.start, s.value.end)
  {
    forall k | 0 <= k < |ps| ensures Opens(ById(id), ps[k].ev) <==> HasId(ps[k].ev, id) {
      OpensIs(ById(id), ps[k].ev);
    }
  }

  // ---------------------------------------------------------------- byte positions

  lemma {:induction false} RawConcat(a: seq<Piece>, b: seq<Piece>)
    ensures Raw(a + b) == Raw(a) + Raw(b)
  {
    if a == [] {
      assert a + b == b;
    } else {
      assert (a + b)[1..] == a[1..] + b;
      RawConcat(a[1..], b);
      Assoc(a[0].raw, Raw(a[1..]), Raw(b));
    }
  }

  /** The byte offset of position `i`. */
  ghost function Offset(ps: seq<Piece>, i: nat): nat
    requires i <= |ps|
  {
    |Raw(ps[..i])|
  }

  lemma {:induction false} OffsetNext(ps: seq<Piece>, i: nat)
    requires i < |ps|
    ensures Offset(ps, i + 1) == Offset(ps, i) + |ps[i].raw| <= |Raw(ps)|
    ensures ps[i].raw != "" ==> Raw(ps)[Offset(ps, i)] == ps[i].raw[0]
  {
    assert ps[..i + 1] == ps[..i] + [ps[i]];
    RawConcat(ps[..i], [ps[i]]);
    assert ps == ps[..i + 1] + ps[i + 1..];
    RawConcat(ps[..i + 1], ps[i + 1..]);
    assert [ps[i]][1..] == [];
  }

  /** The parser's contract: the bytes of a tag begin with '<'. */
  ghost predicate TagsOpen(ps: seq<Piece>) {
    forall i :: 0 <= i < |ps| && IsOpening(ps[i].ev) ==> ps[i].raw != "" && ps[i].raw[0] == '<'
  }

  ghost function Bytes(ps: seq<Piece>, s: Option<Span>): Option<Span>
    requires s.Some? ==> s.value.start <= s.value.end <= |ps|
  {
    if s.None? then None else Some(Span(Offset(ps, s.value.start), Offset(ps, s.value.end)))
  }

  ghost predicate NoTagBetween(bytes: string, at: nat, pos: nat)
    requires pos <= |bytes|
  {
    forall i :: at < i < pos ==> bytes[i] != '<'
  }

  /** `find_tag_open_from`: the tag at `pos`, or the nearest '<' before it. */
  method FindTagOpenFrom(bytes: string, pos: nat) returns (at: nat)
    requires pos <= |bytes|
    ensures pos < |bytes| && bytes[pos] == '<' ==> at == pos
    ensures at <= pos
    ensures at > 0 && at != pos ==> bytes[at] == '<'
    ensures NoTagBetween(bytes, at, pos)
  {
    if pos < |bytes| && bytes[pos] == '<' {
      return pos;
    }
    at := if pos == 0 then 0 else pos - 1;
    while at > 0 && bytes[at] != '<'
      invariant at <= pos
      invariant pos > 0 ==> at < pos
      invariant forall i :: at < i < pos ==> bytes[i] != '<'
    {
      at := at - 1;
    }
  }

  lemma {:induction false} RunBounds(q: Query, ps: seq<Piece>, at: nat, scan: Scan)
    requires scan.Inside? ==> scan.from <= at
    ensures Run(q, ps, at, scan).Some? ==>
              Run(q, ps, at, scan).value.start <= Run(q, ps, at, scan).value.end <= at + |ps|
  {
    if ps != [] {
      match Step(q, ps[0].ev, at, scan)
      case Found(_) =>
      case Goes(scan') => RunBounds(q, ps[1..], at + 1, scan');
    }
  }

  lemma {:induction false} RunStep(q: Query, ps: seq<Piece>, i: nat, scan: Scan)
    requires i < |ps|
    ensures Run(q, ps[i..], i, scan)
            == match Step(q, ps[i].ev, i, scan)
               case Found(span) => Some(span)
               case Goes(scan') => Run(q, ps[i + 1..], i + 1, scan')
  {
    assert ps[i..][1..] == ps[i + 1..];
  }

  /** What the scan yields lies within the stream, and on a well-nested one it is the first
      element that answers. */
  lemma {:induction false} ScanAnswers(q: Query, ps: seq<Piece>)
    ensures var s := Run(q, ps, 0, Searching);
            s.Some? ==> s.value.start <= s.value.end <= |ps|
    ensures forall f :: WellNested(f) && Flatten(f) == ps ==> Run(q, ps, 0, Searching) == First(q, f, 0)
  {
    RunBounds(q, ps, 0, Searching);
    forall f | WellNested(f) && Flatten(f) == ps ensures Run(q, ps, 0, Searching) == First(q, f, 0) {
      ScanCorrect(q, f);
    }
  }

  /** The loop of `locate_element`. */
  method ScanElement(bytes: string, ps: seq<Piece>, local: string) returns (r: Option<Span>)
    requires bytes == Raw(ps) && TagsOpen(ps)
    ensures var s := Run(ByLocal(local), ps, 0, Searching);
            (s.Some? ==> s.value.start <= s.value.end <= |ps|) && r == Bytes(ps, s)
  {
    ghost var q := ByLocal(local);
    RunBounds(q, ps, 0, Searching);
    var depth: nat, start := 0, None;
    ghost var scan := Searching;
    var pos, i := 0, 0;
    assert ps[0..] == ps;
    while i < |ps|
      invariant 0 <= i <= |ps| && pos == Offset(ps, i)
      invariant Run(q, ps, 0, Searching) == Run(q, ps[i..], i, scan)
      invariant scan.Searching? <==> start.None?
      invariant scan.Inside? ==> scan.from <= i && start.value == Offset(ps, scan.from) && depth == scan.depth >= 1
    {
      OffsetNext(ps, i);
      RunStep(q, ps, i, scan);
      var e, before := ps[i].ev, pos;
      pos := pos + |ps[i].raw|;
      match e {
        case Start(name, _) =>
          if LocalEq(name, local) && start.None? {
            var at := FindTagOpenFrom(bytes, before);
            start, depth, scan := Some(at), 1, Inside(i, name, 1);
          } else if start.Some? && LocalEq(name, local) {
            depth := depth + 1;
            scan := scan.(depth := depth);
          }
        case End(name) =>
          if LocalEq(name, local) && start.Some? {
            depth := depth - 1;
            if depth == 0 {
              return Some(Span(start.value, pos));
            }
            scan := scan.(depth := depth);
          }
        case Empty(name, _) =>
          if LocalEq(name, local) && start.None? {
            var at := FindTagOpenFrom(bytes, before);
            return Some(Span(at, pos));
          }
        case _ =>
      }
      i := i + 1;
    }
    return None;
  }

  /** `locate_element`: the byte span of the first element with this local name. */
  method LocateElement(bytes: string, ps: seq<Piece>, local: string) returns (r: Option<Span>)
    requires bytes == Raw(ps) && TagsOpen(ps)
    ensures var s := Run(ByLocal(local), ps, 0, Searching);
            && (s.Some? ==> s.value.start <= s.value.end <= |ps|)
            && r == Bytes(ps, s)
            && forall f :: WellNested(f) && Flatten(f) == ps ==> s == First(ByLocal(local), f, 0)
    ensures IsDocument(ps) ==>
              if r.None? then forall k :: 0 <= k < |ps| ==> !HasLocal(ps[k].ev, local)
              else exists i: nat, j: nat :: FirstWithLocal(ps, local, i, j) && r.value == Span(|Raw(ps[..i])|, |Raw(ps[..j])|)
  {
    ScanAnswers(ByLocal(local), ps);
    ScanMeans(ByLocal(local), ps);
    if IsDocument(ps) { AnswersLocal(ps, local, Run(ByLocal(local), ps, 0, Searching)); }
    r := ScanElement(bytes, ps, local);
  }

  /** The loop of `locate_element_by_id`. */
  method ScanElementById(bytes: string, ps: seq<Piece>, id: string) returns (r: Option<Span>)
    requires bytes == Raw(ps) && TagsOpen(ps)
    ensures var s := Run(ById(id), ps, 0, Searching);
            (s.Some? ==> s.value.start <= s.value.end <= |ps|) && r == Bytes(ps, s)
  {
    ghost var q := ById(id);
    RunBounds(q, ps, 0, Searching);
    var depth: nat, target: Option<(string, nat)> := 0, None;
    ghost var scan := Searching;
    var pos, i := 0, 0;
    assert ps[0..] == ps;
    while i < |ps|
      invariant 0 <= i <= |ps| && pos == Offset(ps, i)
      invariant Run(q, ps, 0, Searching) == Run(q, ps[i..], i, scan)
      invariant scan.Searching? <==> target.None?
      invariant scan.Inside? ==>
                  && scan.from <= i && target.value == (scan.root, Offset(ps, scan.from))
                  && depth == scan.depth >= 1
    {
      OffsetNext(ps, i);
      RunStep(q, ps, i, scan);
      var e, before := ps[i].ev, pos;
      pos := pos + |ps[i].raw|;
      match e {
        case Start(name, attrs) =>
          if Attr("ID", id) in attrs && target.None? {
            var at := FindTagOpenFrom(bytes, before);
            target, depth, scan := Some((name, at)), 1, Inside(i, name, 1);
          } else if target.Some? && name == target.value.0 {
            depth := depth + 1;
            scan := scan.(depth := depth);
          }
        case End(name) =>
          if target.Some? && name == target.value.0 {
            depth := depth - 1;
            if depth == 0 {
              return Some(Span(target.value.1, pos));
            }
            scan := scan.(depth := depth);
          }
        case Empty(_, attrs) =>
          if Attr("ID", id) in attrs && target.None? {
            var at := FindTagOpenFrom(bytes, before);
            return Some(Span(at, pos));
          }
        case _ =>
      }
      i := i + 1;
    }
    return None;
  }

  /** `locate_element_by_id`: the byte span of the first element with this `ID`. */
  method LocateElementById(bytes: string, ps: seq<Piece>, id: string) returns (r: Option<Span>)
    requires bytes == Raw(ps) && TagsOpen(ps)
    ensures var s := Run(ById(id), ps, 0, Searching);
            && (s.Some? ==> s.value.start <= s.value.end <= |ps|)
            && r == Bytes(ps, s)
            && forall f :: WellNested(f) && Flatten(f) == ps ==> s == First(ById(id), f, 0)
    ensures IsDocument(ps) ==>
              if r.None? then forall k :: 0 <= k < |ps| ==> !HasId(ps[k].ev, id)
              else exists i: nat, j: nat :: FirstWithId(ps, id, i, j) && r.value == Span(|Raw(ps[..i])|, |Raw(ps[..j])|)
  {
    ScanAnswers(ById(id), ps);
    ScanMeans(ById(id), ps);
    if IsDocument(ps) { AnswersId(ps, id, Run(ById(id), ps, 0, Searching)); }
    r := ScanElementById(bytes, ps, id);
  }

  lemma {:induction false} CutBytes(ps: seq<Piece>, i: nat, j: nat)
    requires i <= j <= |ps|
    ensures Offset(ps, i) <= Offset(ps, j) <= |Raw(ps)|
    ensures Raw(ps)[..Offset(ps, i)] + Raw(ps)[Offset(ps, j)..] == Raw(ps[..i] + ps[j..])
  {
    assert ps == ps[..i] + ps[i..] && ps == ps[..j] + ps[j..] && ps[..j] == ps[..i] + ps[i..j];
    RawConcat(ps[..i], ps[i..]);
    RawConcat(ps[..j], ps[j..]);
    RawConcat(ps[..i], ps[i..j]);
    RawConcat(ps[..i], ps[j..]);
  }

  /** `strip_signature_subtree`: the bytes without the span of what the scan finds. On every
      well-nested document, those are the bytes of the document without its first `Signature`
      element. */
  method StripSignatureSubtree(bytes: string, ps: seq<Piece>) returns (out: string)
    requires bytes == Raw(ps) && TagsOpen(ps)
    ensures var s := Run(ByLocal("Signature"), ps, 0, Searching);
            && (s.Some? ==> s.value.start <= s.value.end <= |ps|)
            && out == if s.None? then bytes else Raw(ps[..s.value.start] + ps[s.value.end..])
    ensures forall f :: WellNested(f) && Flatten(f) == ps ==> out == Raw(Flatten(Remove(ByLocal("Signature"), f)))
    ensures IsDocument(ps) ==>
              if forall k :: 0 <= k < |ps| ==> !HasLocal(ps[k].ev, "Signature") then out == bytes
              else exists i: nat, j: nat :: FirstWithLocal(ps, "Signature", i, j) && out == Raw(ps[..i] + ps[j..])
  {
    ScanMeans(ByLocal("Signature"), ps);
    if IsDocument(ps) { AnswersLocal(ps, "Signature", Run(ByLocal("Signature"), ps, 0, Searching)); }
    ghost var s := Run(ByLocal("Signature"), ps, 0, Searching);
    var span := LocateElement(bytes, ps, "Signature");
    if span.None? {
      out := bytes;
    } else {
      CutBytes(ps, s.value.start, s.value.end);
      out := bytes[..span.value.start] + bytes[span.value.end..];
    }
    forall f | WellNested(f) && Flatten(f) == ps ensures out == Raw(Flatten(Remove(ByLocal("Signature"), f))) {
      CutIsRemoval(ByLocal("Signature"), f);
    }
  }

  /** What the scan cuts out of a well-nested document. */
  lemma {:induction false} CutIsRemoval(q: Query, f: Forest)
    requires WellNested(f)
    ensures var ps := Flatten(f);
            var s := Run(q, ps, 0, Searching);
            && (s.Some? ==> s.value.start <= s.value.end <= |ps|)
            && Flatten(Remove(q, f)) == if s.None? then ps else ps[..s.value.start] + ps[s.value.end..]
  {
    ScanCorrect(q, f);
    if First(q, f, 0).Some? {
      RemoveCuts(q, f);
    } else {
      RemoveNone(q, f);
    }
  }
}
