/** Per-path authorisation rules: longest matching prefix. Strings are their bytes. */
module AuthRules {
  import opened Basics
  import opened Ordering

  /** `auth: "public"` (or, mistakenly, another word) or `auth: { min_role: R }`. */
  datatype Auth = Public(word: string) | Role(minRole: string)

  datatype Rule = Rule(prefix: string, matchMode: string, auth: Auth)

  datatype Resolved = Open | Require(minRole: string)

  predicate EndsWithSlash(s: string) {
    s != "" && s[|s| - 1] == '/'
  }

  predicate Matches(rule: Rule, path: string) {
    if rule.matchMode == "exact" then path == rule.prefix
    else if path == rule.prefix then true
    else if EndsWithSlash(rule.prefix) then StartsWith(path, rule.prefix)
    else StartsWith(path, rule.prefix) && StartsWith(path[|rule.prefix|..], "/")
  }

  /** A word other than "public" fails closed. */
  function Verdict(auth: Auth): Resolved {
    match auth
    case Public(word) => if word == "public" then Open else Require("OWNER")
    case Role(minRole) => Require(minRole)
  }

  /** Longer prefixes first. */
  predicate LongerFirst(a: Rule, b: Rule) { |a.prefix| >= |b.prefix| }

  /** `resolve_auth_rule`: sort by descending length, take the first match. */
  method ResolveAuthRule(rules: seq<Rule>, path: string) returns (r: Option<Resolved>)
    ensures var best := Best(rules, path);
            r == if best.None? then None else Some(Verdict(best.value.auth))
    ensures if r.None? then forall j :: 0 <= j < |rules| ==> !Covers(rules[j], path)
            else exists i: nat :: Governs(rules, path, i) && Answers(rules[i].auth, r.value)
  {
    SortedFirstIsBest(rules, path);
    BestGoverns(rules, path);
    r := ScanRules(Sort(LongerFirst, rules), path);
  }

  /** The scan: the verdict of the first rule that matches. */
  method ScanRules(sorted: seq<Rule>, path: string) returns (r: Option<Resolved>)
    ensures var first := FirstMatch(sorted, path);
            r == if first.None? then None else Some(Verdict(first.value.auth))
  {
    var i := 0;
    while i < |sorted|
      invariant 0 <= i <= |sorted| && FirstMatch(sorted[..i], path).None?
    {
      FirstMatchNext(sorted, i, path);
      if Matches(sorted[i], path) {
        return Some(Verdict(sorted[i].auth));
      }
      i := i + 1;
    }
    assert sorted[..i] == sorted;
    return None;
  }

  function FirstMatch(rules: seq<Rule>, path: string): Option<Rule> {
    if rules == [] then None
    else
      var f := FirstMatch(rules[..|rules| - 1], path);
      if f.Some? then f
      else if Matches(rules[|rules| - 1], path) then Some(rules[|rules| - 1]) else None
  }

  lemma {:induction false} FirstMatchPrefix(rules: seq<Rule>, n: nat, path: string)
    requires n <= |rules| && FirstMatch(rules[..n], path).Some?
    ensures FirstMatch(rules, path) == FirstMatch(rules[..n], path)
  {
    if n < |rules| {
      assert rules[..|rules| - 1][..n] == rules[..n];
      FirstMatchPrefix(rules[..|rules| - 1], n, path);
    } else {
      assert rules[..n] == rules;
    }
  }

  lemma {:induction false} FirstMatchNext(rules: seq<Rule>, i: nat, path: string)
    requires i < |rules| && FirstMatch(rules[..i], path).None?
    ensures FirstMatch(rules[..i + 1], path).Some? <==> Matches(rules[i], path)
    ensures Matches(rules[i], path) ==> FirstMatch(rules, path) == Some(rules[i])
  {
    assert rules[..i + 1][..i] == rules[..i];
    if Matches(rules[i], path) { FirstMatchPrefix(rules, i + 1, path); }
  }

  // ------------------------------------------------------------- specification

  /** The better of a rule found so far and a later one: only a longer match replaces it. */
  function Better(f: Option<Rule>, x: Rule, path: string): Option<Rule> {
    if Matches(x, path) && (f.None? || |f.value.prefix| < |x.prefix|) then Some(x) else f
  }

  /** The longest match, the earliest among equally long ones. */
  function Best(rules: seq<Rule>, path: string): Option<Rule> {
    if rules == [] then None
    else Better(Best(rules[..|rules| - 1], path), rules[|rules| - 1], path)
  }

  lemma {:induction false} SortOrder()
    ensures Preorder(LongerFirst)
  {}

  lemma {:induction false} FirstMatchIn(rules: seq<Rule>, path: string)
    ensures match FirstMatch(rules, path)
            case None => true
            case Some(r) => r in rules && Matches(r, path)
  {
    if rules != [] { FirstMatchIn(rules[..|rules| - 1], path); }
  }

  lemma {:induction false} FirstMatchSnoc(rules: seq<Rule>, x: Rule, path: string)
    ensures FirstMatch(rules + [x], path)
            == if FirstMatch(rules, path).Some? then FirstMatch(rules, path)
               else if Matches(x, path) then Some(x) else None
  {
    assert (rules + [x])[..|rules|] == rules;
  }

  /** Inserting a rule into a sorted list changes the first match as `Better` says. */
  lemma {:induction false} InsertFirstMatch(s: seq<Rule>, x: Rule, path: string)
    requires Sorted(LongerFirst, s)
    ensures FirstMatch(Insert(LongerFirst, s, x), path) == Better(FirstMatch(s, path), x, path)
  {
    if s == [] {
      FirstMatchSnoc(s, x, path);
    } else {
      var n := |s| - 1;
      var init, last := s[..n], s[n];
      assert s == init + [last];
      FirstMatchIn(s, path);
      FirstMatchSnoc(init, last, path);
      if LongerFirst(last, x) {
        FirstMatchSnoc(s, x, path);
      } else {
        InsertFirstMatch(init, x, path);
        FirstMatchSnoc(Insert(LongerFirst, init, x), last, path);
      }
    }
  }

  lemma {:induction false} SortedFirstIsBest(rules: seq<Rule>, path: string)
    ensures FirstMatch(Sort(LongerFirst, rules), path) == Best(rules, path)
  {
    if rules != [] {
      var n := |rules| - 1;
      SortedFirstIsBest(rules[..n], path);
      SortOrder();
      SortSorts(LongerFirst, rules[..n]);
      InsertFirstMatch(Sort(LongerFirst, rules[..n]), rules[n], path);
    }
  }

  /** `i` is the winner: it matches, nothing that matches is longer, nothing as long comes
      earlier. */
  ghost predicate Wins(rules: seq<Rule>, path: string, i: nat) {
    && i < |rules| && Matches(rules[i], path)
    && forall j :: 0 <= j < |rules| && Matches(rules[j], path) ==>
         |rules[j].prefix| < |rules[i].prefix| || (|rules[j].prefix| == |rules[i].prefix| && i <= j)
  }

  /** One more rule: the winner stays unless the new rule matches and is longer. */
  lemma {:induction false} WinsOn(rules: seq<Rule>, path: string, i: nat)
    requires rules != [] && Wins(rules[..|rules| - 1], path, i)
    ensures var last := rules[|rules| - 1];
            if Matches(last, path) && |rules[i].prefix| < |last.prefix| then Wins(rules, path, |rules| - 1)
            else Wins(rules, path, i)
  {
    var init := rules[..|rules| - 1];
    forall j | 0 <= j < |init| ensures rules[j] == init[j] {}
  }

  /** The answer is the winner's, and there is none exactly when nothing matches. */
  lemma {:induction false} BestWins(rules: seq<Rule>, path: string)
    ensures match Best(rules, path)
            case None => forall j :: 0 <= j < |rules| ==> !Matches(rules[j], path)
            case Some(r) => exists i: nat :: Wins(rules, path, i) && rules[i] == r
  {
    if rules != [] {
      var n := |rules| - 1;
      var init := rules[..n];
      BestWins(init, path);
      if Best(init, path).Some? {
        var i: nat :| Wins(init, path, i) && init[i] == Best(init, path).value;
        WinsOn(rules, path, i);
      } else {
        forall j | 0 <= j < n ensures !Matches(rules[j], path) { assert rules[j] == init[j]; }
        if Matches(rules[n], path) { assert Wins(rules, path, n); }
      }
    }
  }

  /** Access without authentication is granted only by a winning rule that says "public". */
  lemma {:induction false} OpenOnlyIfPublic(rules: seq<Rule>, path: string)
    requires Best(rules, path).Some? && Verdict(Best(rules, path).value.auth) == Open
    ensures exists i: nat :: Wins(rules, path, i) && rules[i].auth == Public("public")
  {
    BestWins(rules, path);
  }

  // -------------------------------------------------------------- permutations

  lemma {:induction false} MatchIsPrefix(rule: Rule, path: string)
    requires Matches(rule, path)
    ensures StartsWith(path, rule.prefix)
  {}

  ghost predicate DistinctPrefixes(rules: seq<Rule>) {
    forall a, b :: a in rules && b in rules && a.prefix == b.prefix ==> a == b
  }

  /** The best rule is one of the rules, matches, and is as long as any that does. */
  lemma {:induction false} BestIsLongest(rules: seq<Rule>, path: string, x: Rule)
    ensures Best(rules, path).Some? ==>
              Best(rules, path).value in rules && Matches(Best(rules, path).value, path)
    ensures x in rules && Matches(x, path) ==>
              Best(rules, path).Some? && |x.prefix| <= |Best(rules, path).value.prefix|
  {
    if rules != [] {
      BestIsLongest(rules[..|rules| - 1], path, x);
      assert rules == rules[..|rules| - 1] + [rules[|rules| - 1]];
    }
  }

  /** With distinct prefixes the order of the rules does not matter. */
  lemma {:induction false} OrderIrrelevant(a: seq<Rule>, b: seq<Rule>, path: string)
    requires multiset(a) == multiset(b) && DistinctPrefixes(a)
    ensures Best(a, path) == Best(b, path)
  {
    var x, y := Best(a, path), Best(b, path);
    if x.Some? {
      BestIsLongest(a, path, x.value);
      assert x.value in multiset(b);
      BestIsLongest(b, path, x.value);
    }
    if y.Some? {
      BestIsLongest(b, path, y.value);
      assert y.value in multiset(a);
      BestIsLongest(a, path, y.value);
      MatchIsPrefix(x.value, path);
      MatchIsPrefix(y.value, path);
    }
  }

  // ------------------------------------------------------------------ segments

  function Split(s: string): (parts: seq<string>)
    ensures parts != []
  {
    if s == "" then [""]
    else if s[0] == '/' then [""] + Split(s[1..])
    else var r := Split(s[1..]); [[s[0]] + r[0]] + r[1..]
  }

  lemma {:induction false} SplitHead(s: string)
    ensures Split(s)[0] == "" <==> s == "" || s[0] == '/'
  {}

  /** Segments of `p` lead those of `path` exactly when `path` is `p` or goes on behind a
      slash. */
  lemma {:induction false} SegmentPrefix(p: string, path: string)
    ensures Split(p) <= Split(path) <==> path == p || StartsWith(path, p + "/")
  {
    SplitHead(path);
    if p == "" {
      assert Split(p) == [""];
      assert path != "" ==> (StartsWith(path, "/") <==> path[0] == '/');
      assert p + "/" == "/";
    } else if path == "" {
    } else {
      SegmentPrefix(p[1..], path[1..]);
      assert (p + "/")[1..] == p[1..] + "/" && (p + "/")[0] == p[0];
      StartsWithCons(path, p + "/");
      assert path == p <==> path[0] == p[0] && path[1..] == p[1..] by {
        assert path == [path[0]] + path[1..] && p == [p[0]] + p[1..];
      }
      var r, q := Split(p[1..]), Split(path[1..]);
      if p[0] == '/' && path[0] == '/' {
        PrefixCons("", r, q);
      } else if p[0] != '/' && path[0] != '/' {
        HeadCons(p[0], r, path[0], q);
      }
    }
  }

  lemma {:induction false} StartsWithCons(s: string, p: string)
    requires s != "" && p != ""
    ensures StartsWith(s, p) <==> s[0] == p[0] && StartsWith(s[1..], p[1..])
  {
    if |p| <= |s| {
      assert s[..|p|] == [s[0]] + s[1..][..|p| - 1];
      assert p == [p[0]] + p[1..];
    }
  }

  lemma {:induction false} PrefixCons(h: string, r: seq<string>, q: seq<string>)
    ensures [h] + r <= [h] + q <==> r <= q
  {
    if [h] + r <= [h] + q {
      assert r == ([h] + r)[1..] == ([h] + q)[..1 + |r|][1..] == q[..|r|];
    }
  }

  lemma {:induction false} HeadCons(c: char, r: seq<string>, d: char, q: seq<string>)
    requires r != [] && q != []
    ensures [[c] + r[0]] + r[1..] <= [[d] + q[0]] + q[1..] <==> c == d && r <= q
  {
    var x, y := [[c] + r[0]] + r[1..], [[d] + q[0]] + q[1..];
    if x <= y {
      assert x[0] == y[0];
      assert x[0][0] == c && y[0][0] == d;
      assert r[0] == x[0][1..] && q[0] == y[0][1..];
      forall i | 0 <= i < |r| ensures r[i] == q[i] {
        if i > 0 { assert r[i] == x[i] && q[i] == y[i]; }
      }
    }
    if c == d && r <= q {
      forall i | 0 <= i < |x| ensures x[i] == y[i] {
        if i > 0 { assert x[i] == r[i] && y[i] == q[i]; }
      }
    }
  }

  /** A segment rule without trailing slash matches whole leading segments, no more, no
      less. */
  lemma {:induction false} SegmentRuleExact(rule: Rule, path: string)
    requires rule.matchMode != "exact" && !EndsWithSlash(rule.prefix)
    ensures Matches(rule, path) <==> Split(rule.prefix) <= Split(path)
  {
    var p := rule.prefix;
    SegmentPrefix(p, path);
    if StartsWith(path, p) {
      var rest := path[|p|..];
      assert path == p + rest;
      if rest != "" && rest[0] == '/' { assert path[..|p| + 1] == p + "/"; }
    }
    if StartsWith(path, p + "/") {
      assert path[..|p| + 1][|p|] == '/';
      assert path[..|p|] == path[..|p| + 1][..|p|];
    }
  }

  // -------------------------------------------------------- the answer, spelled out

  /** A rule covers its own prefix alone, or the paths whose segments begin with its own; with a
      trailing slash, those that go on behind them. */
  ghost predicate Covers(rule: Rule, path: string) {
    var segments := Split(rule.prefix);
    if rule.matchMode == "exact" then path == rule.prefix
    else if rule.prefix != "" && rule.prefix[|rule.prefix| - 1] == '/' then segments[..|segments| - 1] < Split(path)
    else segments <= Split(path)
  }

  /** Public only by the word "public", the role that is asked for, and OWNER for any other
      word. */
  ghost predicate Answers(auth: Auth, r: Resolved) {
    match auth
    case Role(minRole) => r == Require(minRole)
    case Public(word) => (word == "public" ==> r == Open) && (word != "public" ==> r == Require("OWNER"))
  }

  /** `i` covers the path, no covering rule is longer, and none as long comes earlier. */
  ghost predicate Governs(rules: seq<Rule>, path: string, i: nat) {
    && i < |rules| && Covers(rules[i], path)
    && forall j :: 0 <= j < |rules| && Covers(rules[j], path) ==>
         |rules[j].prefix| < |rules[i].prefix| || (|rules[j].prefix| == |rules[i].prefix| && i <= j)
  }

  lemma {:induction false} SplitSlash(p: string)
    ensures Split(p + "/") == Split(p) + [""]
  {
    if p == "" {
      assert p + "/" == "/" && "/"[1..] == "";
    } else {
      assert (p + "/")[1..] == p[1..] + "/";
      SplitSlash(p[1..]);
    }
  }

  lemma {:induction false} ProperPrefix(p: string, path: string)
    ensures Split(p) < Split(path) <==> StartsWith(path, p + "/")
  {
    SegmentPrefix(p, path);
    if path == p { assert !StartsWith(path, p + "/"); }
    if Split(p) == Split(path) { SplitInjective(p, path); }
    if StartsWith(path, p + "/") { assert path != p; }
  }

  lemma {:induction false} SplitInjective(a: string, b: string)
    requires Split(a) == Split(b)
    ensures a == b
  {
    SegmentPrefix(a, b);
    SegmentPrefix(b, a);
  }

  /** A rule with a trailing slash matches exactly what goes on behind its segments. */
  lemma {:induction false} SlashRuleExact(rule: Rule, path: string)
    requires rule.matchMode != "exact" && EndsWithSlash(rule.prefix)
    ensures Matches(rule, path) <==> Split(rule.prefix)[..|Split(rule.prefix)| - 1] < Split(path)
  {
    var p := rule.prefix[..|rule.prefix| - 1];
    assert rule.prefix == p + "/";
    SplitSlash(p);
    assert (Split(p) + [""])[..|Split(p)|] == Split(p);
    ProperPrefix(p, path);
    if path == rule.prefix { assert path[..|rule.prefix|] == rule.prefix; }
  }

  lemma {:induction false} MatchesIs(rule: Rule, path: string)
    ensures Matches(rule, path) <==> Covers(rule, path)
  {
    if rule.matchMode != "exact" {
      if EndsWithSlash(rule.prefix) {
        SlashRuleExact(rule, path);
      } else {
        SegmentRuleExact(rule, path);
      }
    }
  }

  lemma {:induction false} BestGoverns(rules: seq<Rule>, path: string)
    ensures match Best(rules, path)
            case None => forall j :: 0 <= j < |rules| ==> !Covers(rules[j], path)
            case Some(x) => exists i: nat :: Governs(rules, path, i) && Answers(rules[i].auth, Verdict(x.auth))
  {
    forall j | 0 <= j < |rules| ensures Matches(rules[j], path) <==> Covers(rules[j], path) {
      MatchesIs(rules[j], path);
    }
    BestWins(rules, path);
    if Best(rules, path).Some? {
      var i: nat :| Wins(rules, path, i) && rules[i] == Best(rules, path).value;
      assert Governs(rules, path, i);
    }
  }
}
