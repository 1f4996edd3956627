/** XML events as the pull parser delivers them, and qualified names. */
module XmlModel {
  import opened Basics

  /** An attribute with its value already unescaped. */
  datatype Attr = Attr(key: string, value: string)

  datatype Event =
    | Start(name: string, attrs: seq<Attr>)
    | End(name: string)
    | Empty(name: string, attrs: seq<Attr>)
    | Text(text: string)
    | CData(text: string)
    | Comment(body: string)
    | PI(body: string)
    | Decl
    | DocType

  datatype QName = QName(prefix: string, local: string)

  /** Position of the last ':' or -1. */
  function LastColon(s: string): (r: int)
    ensures -1 <= r < |s|
    ensures r >= 0 ==> s[r] == ':'
    ensures forall i :: r < i < |s| ==> s[i] != ':'
  {
    if s == "" then -1
    else if s[|s| - 1] == ':' then |s| - 1
    else LastColon(s[..|s| - 1])
  }

  /** `split_qname`: everything before the last ':' is the prefix. */
  function SplitQName(s: string): (q: QName)
    ensures ':' !in q.local
    ensures s == Join(q.prefix, q.local) || s == ":" + q.local
  {
    var p := LastColon(s);
    if p < 0 then QName("", s)
    else
      assert s == s[..p] + ":" + s[p + 1..];
      QName(s[..p], s[p + 1..])
  }

  /** The way the serialiser writes a name. */
  function Join(prefix: string, local: string): (s: string) {
    if prefix == "" then local else prefix + ":" + local
  }

  /** Writing a name and splitting it again is the identity. */
  lemma {:induction false} SplitJoin(prefix: string, local: string)
    requires ':' !in local
    ensures SplitQName(Join(prefix, local)) == QName(prefix, local)
  {
    var s := Join(prefix, local);
    var p := LastColon(s);
    if prefix == "" {
      assert forall i :: 0 <= i < |s| ==> s[i] in local;
    } else {
      assert s[|prefix|] == ':';
      assert forall i :: |prefix| < i < |s| ==> s[i] == local[i - |prefix| - 1] && s[i] in local;
      assert p == |prefix|;
      assert s[..p] == prefix && s[p + 1..] == local;
    }
  }

  /** `xmlns` or `xmlns:p`: a namespace declaration, not an attribute. */
  predicate IsDecl(key: string) {
    key == "xmlns" || StartsWith(key, "xmlns:")
  }

  function DeclPrefix(key: string): string
    requires IsDecl(key)
  {
    if key == "xmlns" then "" else key[6..]
  }
}
