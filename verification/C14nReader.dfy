/** A reader for canonical text. With it the theorems speak about bytes: the output
    determines the resolved items, and canonicalising the output again returns it unchanged. */
module C14nReader {
  import opened Basics
  import opened XmlModel
  import opened C14nSpec
  import opened C14nTheorems

  /** The first position of `c`, or the length. */
  function Until(s: string, c: char): (n: nat)
    ensures n <= |s|
  {
    if s == "" || s[0] == c then 0 else 1 + Until(s[1..], c)
  }

  /** The first position of either character, or the length. */
  function UntilEither(s: string, c: char, d: char): (n: nat)
    ensures n <= |s|
  {
    if s == "" || s[0] == c || s[0] == d then 0 else 1 + UntilEither(s[1..], c, d)
  }

  /** The first position of `mark`, or the length. */
  function Find(s: string, mark: string): (n: nat)
    ensures n <= |s|
    ensures n < |s| ==> |s| - n >= |mark|
  {
    if s == "" || StartsWith(s, mark) then 0 else 1 + Find(s[1..], mark)
  }

  /** The character a reference stands for. */
  function Referent(name: string): Option<char> {
    if name == "amp" then Some('&')
    else if name == "lt" then Some('<')
    else if name == "gt" then Some('>')
    else if name == "quot" then Some('\"')
    else if name == "#x9" then Some('\t')
    else if name == "#xA" then Some('\n')
    else if name == "#xD" then Some('\r')
    else None
  }

  /** Entity and character references, as far as canonical text uses them. */
  function Unescape(s: string): string
    decreases |s|
  {
    if s == "" then ""
    else
      var n := Until(s, ';');
      if s[0] == '&' && 0 < n < |s| && Referent(s[1..n]).Some?
      then [Referent(s[1..n]).value] + Unescape(s[n + 1..])
      else [s[0]] + Unescape(s[1..])
  }

  /** One ` key="value"`. */
  function ReadAttr(s: string): (r: Option<(Attr, string)>)
    ensures r.Some? ==> |r.value.1| < |s|
  {
    if s == "" || s[0] != ' ' then None
    else
      var k := Until(s[1..], '=');
      var t := s[1..][k..];
      if |t| < 2 || t[1] != '\"' then None
      else
        var v := Until(t[2..], '\"');
        if v == |t[2..]| then None
        else Some((Attr(s[1..][..k], Unescape(t[2..][..v])), t[2..][v + 1..]))
  }

  /** The attributes and the closing bracket of a start-tag; what follows is returned. */
  function ReadAttrs(s: string): (r: Option<(seq<Attr>, string)>)
    ensures r.Some? ==> |r.value.1| < |s|
    decreases |s|
  {
    if s != "" && s[0] == '>' then Some(([], s[1..]))
    else
      var a := ReadAttr(s);
      if a.None? then None
      else
        var rest := ReadAttrs(a.value.1);
        if rest.None? then None else Some(([a.value.0] + rest.value.0, rest.value.1))
  }

  /** One event and what follows it; `None` ends the reading. */
  function Next(s: string): (r: Option<(Event, string)>)
    ensures r.Some? ==> |r.value.1| < |s|
  {
    if s == "" then None
    else if s[0] != '<' then
      var n := Until(s, '<');
      Some((Text(Unescape(s[..n])), s[n..]))
    else NextTag(s[1..])
  }

  /** What stands behind a '<'. */
  function NextTag(s: string): (r: Option<(Event, string)>)
    ensures r.Some? ==> |r.value.1| < |s|
  {
    if s == "" then None
    else if s[0] == '!' then
      if |s| < 3 then None
      else
        var n := Find(s[3..], "-->");
        if n == |s[3..]| then None else Some((Comment(s[3..][..n]), s[3..][n..][3..]))
    else if s[0] == '?' then
      var n := Find(s[1..], "?>");
      if n == |s[1..]| then None else Some((PI(s[1..][..n]), s[1..][n..][2..]))
    else if s[0] == '/' then
      var n := Until(s[1..], '>');
      if n == |s[1..]| then None else Some((End(s[1..][..n]), s[1..][n + 1..]))
    else
      var n := UntilEither(s, ' ', '>');
      var rest := ReadAttrs(s[n..]);
      if rest.None? then None else Some((Start(s[..n], rest.value.0), rest.value.1))
  }

  function Read(s: string): seq<Event>
    decreases |s|
  {
    var r := Next(s);
    if r.None? then [] else [r.value.0] + Read(r.value.1)
  }

  // ------------------------------------------------------------------ scanning

  lemma {:induction false} UntilSkips(a: string, c: char, b: string)
    requires c !in a && (b == "" || b[0] == c)
    ensures Until(a + b, c) == |a|
  {
    if a == "" {
      assert a + b == b;
    } else {
      assert (a + b)[1..] == a[1..] + b;
      UntilSkips(a[1..], c, b);
    }
  }

  lemma {:induction false} UntilEitherSkips(a: string, c: char, d: char, b: string)
    requires c !in a && d !in a && b != "" && (b[0] == c || b[0] == d)
    ensures UntilEither(a + b, c, d) == |a|
  {
    if a == "" {
      assert a + b == b;
    } else {
      assert (a + b)[1..] == a[1..] + b;
      UntilEitherSkips(a[1..], c, d, b);
    }
  }

  /** `mark` ends `body`: it does not occur earlier, not even across the seam. */
  ghost predicate EndsAt(body: string, mark: string) {
    forall i :: 0 <= i < |body| ==> !StartsWith((body + mark)[i..], mark)
  }

  lemma {:induction false} FindSkips(body: string, mark: string, rest: string)
    requires EndsAt(body, mark) && mark != ""
    ensures Find(body + mark + rest, mark) == |body|
  {
    if body == "" {
      assert (body + mark + rest)[..|mark|] == mark;
    } else {
      var s := body + mark + rest;
      assert s[1..] == body[1..] + mark + rest;
      assert (body + mark)[0..] == body + mark;
      assert s[..|mark|] == (body + mark)[..|mark|];
      forall i | 0 <= i < |body[1..]| ensures !StartsWith((body[1..] + mark)[i..], mark) {
        assert (body[1..] + mark)[i..] == (body + mark)[i + 1..];
      }
      FindSkips(body[1..], mark, rest);
    }
  }

  // ------------------------------------------------------------------ escaping

  lemma {:induction false} UnescapeReference(e: string, name: string, rest: string)
    requires e == "&" + name + ";" && ';' !in name && Referent(name).Some?
    ensures Unescape(e + rest) == [Referent(name).value] + Unescape(rest)
  {
    var s, head, tail := e + rest, "&" + name, ";" + rest;
    assert s == head + tail;
    UntilSkips(head, ';', tail);
    assert s[1..|head|] == name && s[|head| + 1..] == rest;
  }

  lemma {:induction false} UnescapePlain(c: char, rest: string)
    requires c != '&'
    ensures Unescape([c] + rest) == [c] + Unescape(rest)
  {
    assert ([c] + rest)[1..] == rest;
  }

  lemma {:induction false} UnescapeTextChar(c: char, rest: string)
    ensures Unescape(EscapeTextChar(c) + rest) == [c] + Unescape(rest)
  {
    match c
    case '&' => UnescapeReference("&amp;", "amp", rest);
    case '<' => UnescapeReference("&lt;", "lt", rest);
    case '>' => UnescapeReference("&gt;", "gt", rest);
    case '\r' => UnescapeReference("&#xD;", "#xD", rest);
    case _ => UnescapePlain(c, rest);
  }

  lemma {:induction false} UnescapeAttrChar(c: char, rest: string)
    ensures Unescape(EscapeAttrChar(c) + rest) == [c] + Unescape(rest)
  {
    match c
    case '&' => UnescapeReference("&amp;", "amp", rest);
    case '<' => UnescapeReference("&lt;", "lt", rest);
    case '\"' => UnescapeReference("&quot;", "quot", rest);
    case '\t' => UnescapeReference("&#x9;", "#x9", rest);
    case '\n' => UnescapeReference("&#xA;", "#xA", rest);
    case '\r' => UnescapeReference("&#xD;", "#xD", rest);
    case _ => UnescapePlain(c, rest);
  }

  lemma {:induction false} NoMarkup(c: char)
    ensures '<' !in EscapeTextChar(c) && EscapeTextChar(c) != ""
  {}

  lemma {:induction false} UnescapeText(s: string)
    ensures Unescape(EscapedText(s)) == s
    ensures '<' !in EscapedText(s)
    ensures s != "" ==> EscapedText(s) != ""
  {
    if s != "" {
      var e, rest := EscapeTextChar(s[0]), EscapedText(s[1..]);
      UnescapeTextChar(s[0], rest);
      UnescapeText(s[1..]);
      NoMarkup(s[0]);
      assert EscapedText(s) == e + rest;
      assert s == [s[0]] + s[1..];
    }
  }

  lemma {:induction false} NoQuote(c: char)
    ensures '\"' !in EscapeAttrChar(c)
  {}

  lemma {:induction false} UnescapeAttr(s: string)
    ensures Unescape(EscapedAttr(s)) == s
    ensures '\"' !in EscapedAttr(s)
  {
    if s != "" {
      var e, rest := EscapeAttrChar(s[0]), EscapedAttr(s[1..]);
      UnescapeAttrChar(s[0], rest);
      UnescapeAttr(s[1..]);
      NoQuote(s[0]);
      assert EscapedAttr(s) == e + rest;
      assert s == [s[0]] + s[1..];
    }
  }

  // ---------------------------------------------------------------------- tags

  /** Free of the markup characters that no XML name contains. */
  ghost predicate NameChars(s: string) {
    forall c :: c in s ==> !IsMarkup(c)
  }

  predicate IsMarkup(c: char) {
    c == ' ' || c == '>' || c == '<' || c == '=' || c == '\"' || c == '/' || c == '!' || c == '?'
  }

  function WrittenList(attrs: seq<Attr>): string {
    if attrs == [] then "" else WrittenAttr(attrs[0].key, attrs[0].value) + WrittenList(attrs[1..])
  }

  lemma {:induction false} WrittenAttrShape(key: string, e: string, rest: string)
    ensures var s := " " + key + "=\"" + e + "\"" + rest;
            s[0] == ' ' && s[1..] == key + ("=\"" + (e + ("\"" + rest)))
  {
    Assoc(" " + key + "=\"" + e, "\"", rest);
    Assoc(" " + key + "=\"", e, "\"" + rest);
    Assoc(" " + key, "=\"", e + ("\"" + rest));
    Assoc(" ", key, "=\"" + (e + ("\"" + rest)));
  }

  lemma {:induction false} ReadWrittenAttr(key: string, value: string, rest: string)
    requires NameChars(key)
    ensures ReadAttr(WrittenAttr(key, value) + rest) == Some((Attr(key, value), rest))
  {
    var s, e := WrittenAttr(key, value) + rest, EscapedAttr(value);
    var u := "\"" + rest;
    var t := "=\"" + (e + u);
    WrittenAttrShape(key, e, rest);
    UntilSkips(key, '=', t);
    assert (key + t)[..|key|] == key && (key + t)[|key|..] == t;
    assert t[2..] == e + u;
    UnescapeAttr(value);
    UntilSkips(e, '\"', u);
    assert (e + u)[..|e|] == e && (e + u)[|e| + 1..] == rest;
  }

  lemma {:induction false} ReadWrittenList(attrs: seq<Attr>, rest: string)
    requires forall i :: 0 <= i < |attrs| ==> NameChars(attrs[i].key)
    ensures ReadAttrs(WrittenList(attrs) + (">" + rest)) == Some((attrs, rest))
  {
    var tail := ">" + rest;
    if attrs == [] {
      assert WrittenList(attrs) + tail == tail;
      assert tail[1..] == rest;
    } else {
      ReadWrittenList(attrs[1..], rest);
      var w, rest' := WrittenAttr(attrs[0].key, attrs[0].value), WrittenList(attrs[1..]) + tail;
      Assoc(w, WrittenList(attrs[1..]), tail);
      ReadAttrFirst(attrs[0], rest', attrs[1..], rest);
      assert [attrs[0]] + attrs[1..] == attrs;
    }
  }

  lemma {:induction false} ReadAttrFirst(a: Attr, s: string, attrs: seq<Attr>, rest: string)
    requires NameChars(a.key) && ReadAttrs(s) == Some((attrs, rest))
    ensures ReadAttrs(WrittenAttr(a.key, a.value) + s) == Some(([a] + attrs, rest))
  {
    ReadWrittenAttr(a.key, a.value, s);
    assert (WrittenAttr(a.key, a.value) + s)[0] == ' ';
  }

  lemma {:induction false} WrittenListConcat(a: seq<Attr>, b: seq<Attr>)
    ensures WrittenList(a + b) == WrittenList(a) + WrittenList(b)
  {
    if a == [] {
      assert a + b == b;
    } else {
      assert (a + b)[1..] == a[1..] + b;
      WrittenListConcat(a[1..], b);
      Assoc(WrittenAttr(a[0].key, a[0].value), WrittenList(a[1..]), WrittenList(b));
    }
  }

  lemma {:induction false} WrittenDeclsAre(ds: seq<Binding>)
    ensures WrittenDecls(ds) == WrittenList(DeclAttrs(ds))
  {
    if ds != [] {
      assert DeclAttrs(ds)[1..] == DeclAttrs(ds[1..]);
      WrittenDeclsAre(ds[1..]);
    }
  }

  lemma {:induction false} WrittenAttrsAre(attrs: seq<AttrItem>)
    ensures WrittenAttrs(attrs) == WrittenList(PlainAttrs(attrs))
  {
    if attrs != [] {
      assert PlainAttrs(attrs)[1..] == PlainAttrs(attrs[1..]);
      WrittenAttrsAre(attrs[1..]);
    }
  }

  /** A token that can be read back. */
  ghost predicate Readable(t: Token) {
    match t
    case OpenTag(prefix, local, decls, attrs) =>
      && NameChars(Join(prefix, local)) && Join(prefix, local) != ""
      && (forall i :: 0 <= i < |decls| ==> NameChars(DeclKey(decls[i].prefix)))
      && (forall i :: 0 <= i < |attrs| ==> NameChars(Join(attrs[i].prefix, attrs[i].local)))
    case CloseTag(prefix, local) => NameChars(Join(prefix, local))
    case TextRun(text) => text != ""
    case CommentNode(body) => EndsAt(body, "-->")
    case PINode(body) => EndsAt(body, "?>")
  }

  lemma {:induction false} WrittenTag(t: Token, rest: string)
    requires t.OpenTag?
    ensures var attrs := DeclAttrs(t.decls) + PlainAttrs(t.attrs);
            Written(t) + rest == "<" + (Join(t.prefix, t.local) + (WrittenList(attrs) + (">" + rest)))
  {
    var name, d, a := Join(t.prefix, t.local), WrittenDecls(t.decls), WrittenAttrs(t.attrs);
    WrittenDeclsAre(t.decls);
    WrittenAttrsAre(t.attrs);
    WrittenListConcat(DeclAttrs(t.decls), PlainAttrs(t.attrs));
    Assoc("<" + name + d + a, ">", rest);
    Assoc("<" + name, d, a);
    Assoc("<" + name, d + a, ">" + rest);
    Assoc("<", name, d + a + (">" + rest));
  }

  lemma {:induction false} AttrKeysReadable(t: Token)
    requires t.OpenTag? && Readable(t)
    ensures var attrs := DeclAttrs(t.decls) + PlainAttrs(t.attrs);
            forall i :: 0 <= i < |attrs| ==> NameChars(attrs[i].key)
  {}

  lemma {:induction false} ReadTag(name: string, attrs: seq<Attr>, rest: string)
    requires NameChars(name) && name != ""
    requires forall i :: 0 <= i < |attrs| ==> NameChars(attrs[i].key)
    ensures NextTag(name + (WrittenList(attrs) + (">" + rest))) == Some((Start(name, attrs), rest))
  {
    var body := WrittenList(attrs) + (">" + rest);
    assert body[0] == ' ' || body[0] == '>' by {
      if attrs != [] { assert WrittenList(attrs)[0] == ' '; }
    }
    UntilEitherSkips(name, ' ', '>', body);
    assert (name + body)[..|name|] == name && (name + body)[|name|..] == body;
    ReadWrittenList(attrs, rest);
    assert name[0] in name;
  }

  lemma {:induction false} NextOpen(t: Token, rest: string)
    requires t.OpenTag? && Readable(t)
    ensures Next(Written(t) + rest) == Some((EventOf(t), rest))
  {
    var name, attrs := Join(t.prefix, t.local), DeclAttrs(t.decls) + PlainAttrs(t.attrs);
    var inner := name + (WrittenList(attrs) + (">" + rest));
    WrittenTag(t, rest);
    AttrKeysReadable(t);
    ReadTag(name, attrs, rest);
    assert ("<" + inner)[1..] == inner;
  }

  lemma {:induction false} NextClose(t: Token, rest: string)
    requires t.CloseTag? && Readable(t)
    ensures Next(Written(t) + rest) == Some((EventOf(t), rest))
  {
    NextCloseName(Join(t.prefix, t.local), rest);
  }

  lemma {:induction false} NextCloseName(name: string, rest: string)
    requires '>' !in name
    ensures Next("</" + name + ">" + rest) == Some((End(name), rest))
  {
    var v := name + (">" + rest);
    var s := "</" + name + ">" + rest;
    assert s == "<" + ("/" + v);
    var u := s[1..];
    assert u == "/" + v && u[1..] == v;
    UntilSkips(name, '>', ">" + rest);
    assert v[..|name|] == name && v[|name| + 1..] == rest;
  }

  lemma {:induction false} NextComment(body: string, rest: string)
    requires EndsAt(body, "-->")
    ensures Next("<!--" + body + "-->" + rest) == Some((Comment(body), rest))
  {
    var s := ("<!--" + body + "-->" + rest)[1..];
    assert s[3..] == body + "-->" + rest;
    FindSkips(body, "-->", rest);
    assert s[3..][..|body|] == body && s[3..][|body|..] == "-->" + rest;
  }

  lemma {:induction false} NextPI(body: string, rest: string)
    requires EndsAt(body, "?>")
    ensures Next("<?" + body + "?>" + rest) == Some((PI(body), rest))
  {
    var s := ("<?" + body + "?>" + rest)[1..];
    assert s[1..] == body + "?>" + rest;
    FindSkips(body, "?>", rest);
    assert s[1..][..|body|] == body && s[1..][|body|..] == "?>" + rest;
  }

  lemma {:induction false} NextText(text: string, rest: string)
    requires text != "" && (rest == "" || rest[0] == '<')
    ensures Next(EscapedText(text) + rest) == Some((Text(text), rest))
  {
    var e := EscapedText(text);
    UnescapeText(text);
    UntilSkips(e, '<', rest);
    assert (e + rest)[..|e|] == e && (e + rest)[|e|..] == rest;
    assert e[0] in e;
  }

  /** Readable tokens with text runs kept apart. */
  ghost predicate ReadableAll(ts: seq<Token>) {
    && (forall i :: 0 <= i < |ts| ==> Readable(ts[i]))
    && (forall i :: 0 < i < |ts| ==> !(ts[i - 1].TextRun? && ts[i].TextRun?))
  }

  /** Reading the bytes gives the tokens back. */
  lemma {:induction false} ReadSerialised(ts: seq<Token>)
    requires ReadableAll(ts)
    ensures Read(Serialise(ts)) == EventsOf(ts)
  {
    if ts != [] {
      var t, rest := ts[0], Serialise(ts[1..]);
      assert Readable(t) && ReadableAll(ts[1..]);
      ReadSerialised(ts[1..]);
      if t.TextRun? && ts[1..] != [] {
        assert !ts[1].TextRun?;
        assert rest == Written(ts[1]) + Serialise(ts[1..][1..]);
      }
      NextToken(t, rest);
    }
  }

  /** A token is read back, a text if markup or nothing follows it. */
  lemma {:induction false} NextToken(t: Token, rest: string)
    requires Readable(t) && (t.TextRun? ==> rest == "" || rest[0] == '<')
    ensures Next(Written(t) + rest) == Some((EventOf(t), rest))
  {
    match t
    case OpenTag(_, _, _, _) => NextOpen(t, rest);
    case CloseTag(_, _) => NextClose(t, rest);
    case TextRun(text) => NextText(text, rest);
    case CommentNode(body) => NextComment(body, rest);
    case PINode(body) => NextPI(body, rest);
  }
}
