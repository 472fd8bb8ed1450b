// internal/bucket/policy_evaluation.go: bucket policy evaluation.
module Policy {
  import opened Wildcard

  /** A decoded JSON value; numbers and booleans are all `Scalar`. */
  datatype Json = Null | Str(s: string) | Arr(items: seq<Json>) | Obj(fields: map<string, Json>) | Scalar

  datatype Statement = Statement(
    effect: string, principal: Json, action: Json, resource: Json, condition: map<string, Json>)

  datatype Request = Request(
    principal: string, action: string, resource: string, bucket: string,
    sourceIP: string, secureTransport: bool, context: map<string, string>)

  datatype Decision = Deny | Allow | ExplicitDeny

  /**
   * Library behaviour the evaluation rests on.  `foldedLookup` is the entry of the request
   * context that ranging over the map meets first among the keys equal up to case.
   */
  datatype Library = Library(
    lower: string -> string,
    equalFold: (string, string) -> bool,
    foldedLookup: (map<string, string>, string) -> string,
    parsesIP: string -> bool,
    inRange: (string, string) -> bool)

  // ----- statement matching -----

  predicate HasSuffix(s: string, x: string) {
    |x| <= |s| && s[|s| - |x|..] == x
  }

  function TrimSuffix(s: string, x: string): string {
    if HasSuffix(s, x) then s[..|s| - |x|] else s
  }

  predicate PrincipalValueMatches(v: Json, who: string) {
    match v
    case Str(s) => s == "*" || s == who
    case Arr(items) => Str("*") in items || Str(who) in items
    case _ => false
  }

  predicate PrincipalMatches(principal: Json, who: string) {
    match principal
    case Str(s) => s == "*" || s == who
    case Obj(fields) =>
      if "AWS" in fields then PrincipalValueMatches(fields["AWS"], who)
      else "CanonicalUser" in fields && PrincipalValueMatches(fields["CanonicalUser"], who)
    case _ => false
  }

  predicate MatchAction(policyAction: string, requestAction: string) {
    if policyAction == requestAction then true
    else if policyAction == "*" || policyAction == "s3:*" then true
    else HasSuffix(policyAction, "*") && TrimSuffix(policyAction, "*") <= requestAction
  }

  predicate ActionMatches(action: Json, requestAction: string) {
    match action
    case Str(s) => MatchAction(s, requestAction)
    case Arr(items) => exists i :: 0 <= i < |items| && items[i].Str? && MatchAction(items[i].s, requestAction)
    case _ => false
  }

  function NormalizeResourceARN(resource: string, bucket: string): string {
    if "arn:aws:s3:::" <= resource then resource
    else if resource == bucket then "arn:aws:s3:::" + bucket
    else if bucket + "/" <= resource then "arn:aws:s3:::" + resource
    else if bucket <= resource then "arn:aws:s3:::" + resource
    else resource
  }

  predicate MatchResource(policyResource: string, requestResource: string, bucket: string) {
    if policyResource == requestResource then true
    else if policyResource == "*" then true
    else
      var p := NormalizeResourceARN(policyResource, bucket);
      var r := NormalizeResourceARN(requestResource, bucket);
      || p == r
      || (HasSuffix(p, "/*") && TrimSuffix(p, "/*") + "/" <= r)
      || (HasSuffix(p, "*") && !HasSuffix(p, "/*") && TrimSuffix(p, "*") <= r)
  }

  predicate ResourceMatches(resource: Json, requestResource: string, bucket: string) {
    match resource
    case Str(s) => MatchResource(s, requestResource, bucket)
    case Arr(items) => exists i :: 0 <= i < |items| && items[i].Str? && MatchResource(items[i].s, requestResource, bucket)
    case _ => false
  }

  function StringsOf(items: seq<Json>): seq<string> {
    if items == [] then []
    else (if items[0].Str? then [items[0].s] else []) + StringsOf(items[1..])
  }

  function ToStringSlice(v: Json): seq<string> {
    match v
    case Str(s) => [s]
    case Arr(items) => StringsOf(items)
    case _ => []
  }

  function ResolveConditionKey(lib: Library, key: string, req: Request): string {
    var k := lib.lower(key);
    if k == "aws:sourceip" then req.sourceIP
    else if k == "aws:securetransport" then (if req.secureTransport then "true" else "false")
    else if key in req.context then req.context[key]
    else if exists c :: c in req.context && lib.lower(c) == k then lib.foldedLookup(req.context, k)
    else ""
  }

  /** One expected value against the request value, for the operators that accept a match. */
  predicate Hits(lib: Library, op: string, actual: string, expected: string) {
    if op in {"stringequals", "stringnotequals", "numericequals", "numericnotequals"} then actual == expected
    else if op in {"stringequalsignorecase", "stringnotequalsignorecase", "bool"} then lib.equalFold(actual, expected)
    else if op in {"stringlike", "stringnotlike", "arnequals", "arnlike", "arnnotequals", "arnnotlike"} then
      WildcardMatches(expected, actual)
    else op in {"ipaddress", "notipaddress"} && lib.inRange(actual, expected)
  }

  const POSITIVE := {"stringequals", "stringequalsignorecase", "stringlike", "bool", "ipaddress",
                     "arnequals", "arnlike", "numericequals"}
  const NEGATIVE := {"stringnotequals", "stringnotequalsignorecase", "stringnotlike", "notipaddress",
                     "arnnotequals", "arnnotlike", "numericnotequals"}

  predicate EvaluateOperator(lib: Library, operator: string, actual: string, expected: Json) {
    var values := ToStringSlice(expected);
    var op := lib.lower(operator);
    && values != []
    && (op in {"ipaddress", "notipaddress"} ==> lib.parsesIP(actual))
    && (if op in POSITIVE then exists i :: 0 <= i < |values| && Hits(lib, op, actual, values[i])
        else op in NEGATIVE && forall i :: 0 <= i < |values| ==> !Hits(lib, op, actual, values[i]))
  }

  predicate ConditionMatches(lib: Library, condition: map<string, Json>, req: Request) {
    forall operator :: operator in condition ==>
      condition[operator].Obj? &&
      forall key :: key in condition[operator].fields ==>
        EvaluateOperator(lib, operator, ResolveConditionKey(lib, key, req), condition[operator].fields[key])
  }

  predicate StatementMatches(lib: Library, st: Statement, req: Request) {
    && PrincipalMatches(st.principal, req.principal)
    && ActionMatches(st.action, req.action)
    && ResourceMatches(st.resource, req.resource, req.bucket)
    && ConditionMatches(lib, st.condition, req)
  }

  // ----- the decision -----

  /** A statement with this effect applies to the request. */
  predicate Applies(lib: Library, statements: seq<Statement>, req: Request, effect: string) {
    exists i :: 0 <= i < |statements| && statements[i].effect == effect && StatementMatches(lib, statements[i], req)
  }

  /** The documented rule, with no order in it. */
  function Decide(lib: Library, statements: seq<Statement>, req: Request): Decision {
    if Applies(lib, statements, req, "Deny") then ExplicitDeny
    else if Applies(lib, statements, req, "Allow") then Allow
    else Deny
  }

  lemma AppliesOneMore(lib: Library, statements: seq<Statement>, i: nat, req: Request, effect: string)
    requires i < |statements|
    ensures Applies(lib, statements[..i + 1], req, effect) <==>
            Applies(lib, statements[..i], req, effect) ||
            (statements[i].effect == effect && StatementMatches(lib, statements[i], req))
  {
    var before, after := statements[..i], statements[..i + 1];
    assert forall j :: 0 <= j < i ==> before[j] == after[j];
    assert after[i] == statements[i];
  }

  lemma AppliesToPrefix(lib: Library, statements: seq<Statement>, i: nat, req: Request, effect: string)
    requires i <= |statements| && Applies(lib, statements[..i], req, effect)
    ensures Applies(lib, statements, req, effect)
  {
    var j :| 0 <= j < i && statements[..i][j].effect == effect && StatementMatches(lib, statements[..i][j], req);
    assert statements[j] == statements[..i][j];
  }

  /** EvaluatePolicy: one pass over the statements that stops at the first matching Deny. */
  method EvaluatePolicy(lib: Library, statements: seq<Statement>, req: Request) returns (d: Decision)
    ensures d == Decide(lib, statements, req)
  {
    var hasExplicitAllow, hasExplicitDeny := false, false;
    var i := 0;
    while i < |statements|
      invariant 0 <= i <= |statements|
      invariant !hasExplicitDeny && !Applies(lib, statements[..i], req, "Deny")
      invariant hasExplicitAllow <==> Applies(lib, statements[..i], req, "Allow")
    {
      var st := statements[i];
      AppliesOneMore(lib, statements, i, req, "Deny");
      AppliesOneMore(lib, statements, i, req, "Allow");
      if StatementMatches(lib, st, req) {
        if st.effect == "Allow" {
          hasExplicitAllow := true;
        } else if st.effect == "Deny" {
          hasExplicitDeny := true;
          AppliesToPrefix(lib, statements, i + 1, req, "Deny");
          break;
        }
      }
      i := i + 1;
    }
    if hasExplicitDeny {
      return ExplicitDeny;
    }
    assert statements[..i] == statements;
    if hasExplicitAllow {
      return Allow;
    }
    return Deny;
  }

  /** Every statement of `a` occurs in `b`, in any order and any number of times. */
  ghost predicate Within(a: seq<Statement>, b: seq<Statement>) {
    forall i :: 0 <= i < |a| ==> a[i] in b
  }

  lemma AppliesWithin(lib: Library, a: seq<Statement>, b: seq<Statement>, req: Request, effect: string)
    requires Within(a, b) && Applies(lib, a, req, effect)
    ensures Applies(lib, b, req, effect)
  {
    var i :| 0 <= i < |a| && a[i].effect == effect && StatementMatches(lib, a[i], req);
    assert a[i] in b;
    var j :| 0 <= j < |b| && b[j] == a[i];
    assert StatementMatches(lib, b[j], req);
  }

  /** Permuting or repeating statements changes nothing. */
  lemma OrderAndRepetitionDoNotMatter(lib: Library, a: seq<Statement>, b: seq<Statement>, req: Request)
    requires Within(a, b) && Within(b, a)
    ensures Decide(lib, a, req) == Decide(lib, b, req)
  {
    forall effect: string ensures Applies(lib, a, req, effect) == Applies(lib, b, req, effect) {
      if Applies(lib, a, req, effect) { AppliesWithin(lib, a, b, req, effect); }
      if Applies(lib, b, req, effect) { AppliesWithin(lib, b, a, req, effect); }
    }
  }

  /**
   * A larger policy never loses an explicit deny, never falls back from Allow to the implicit
   * deny, and takes an Allow away exactly when it has a matching Deny.
   */
  lemma AddingStatements(lib: Library, a: seq<Statement>, b: seq<Statement>, req: Request)
    requires Within(a, b)
    ensures Decide(lib, a, req) == ExplicitDeny ==> Decide(lib, b, req) == ExplicitDeny
    ensures Decide(lib, a, req) == Allow ==>
            Decide(lib, b, req) == if Applies(lib, b, req, "Deny") then ExplicitDeny else Allow
  {
    if Applies(lib, a, req, "Deny") { AppliesWithin(lib, a, b, req, "Deny"); }
    if Applies(lib, a, req, "Allow") { AppliesWithin(lib, a, b, req, "Allow"); }
  }

  // ----- what the matchers mean -----

  predicate Plain(s: string) {
    '*' !in s && '?' !in s
  }

  lemma {:induction false} PrefixStarIsGlob(prefix: string, s: string)
    requires Plain(prefix)
    ensures Glob(prefix + "*", s) <==> prefix <= s
    decreases |prefix|
  {
    if prefix == "" {
      assert prefix + "*" == "*";
      StarAloneMatchesAll(s);
    } else {
      assert (prefix + "*")[1..] == prefix[1..] + "*";
      if s != "" {
        PrefixStarIsGlob(prefix[1..], s[1..]);
        assert s == [s[0]] + s[1..] && prefix == [prefix[0]] + prefix[1..];
      }
    }
  }

  lemma {:induction false} PlainIsEquality(p: string, s: string)
    requires Plain(p)
    ensures Glob(p, s) <==> p == s
    decreases |p|
  {
    if p != "" && s != "" {
      PlainIsEquality(p[1..], s[1..]);
      assert p == [p[0]] + p[1..] && s == [s[0]] + s[1..];
    }
  }

  /** A pattern with nothing special in it but possibly one final '*'. */
  predicate TrailingStarOnly(p: string) {
    Plain(TrimSuffix(p, "*"))
  }

  lemma TrailingStarIsGlob(p: string, s: string)
    requires TrailingStarOnly(p)
    ensures Glob(p, s) <==> p == s || (HasSuffix(p, "*") && TrimSuffix(p, "*") <= s)
  {
    if HasSuffix(p, "*") {
      assert p == TrimSuffix(p, "*") + "*";
      PrefixStarIsGlob(TrimSuffix(p, "*"), s);
    } else {
      PlainIsEquality(p, s);
    }
  }

  /** On such patterns an action matches as a glob, except that "s3:*" covers every action. */
  lemma ActionIsGlob(p: string, action: string)
    requires TrailingStarOnly(p)
    ensures MatchAction(p, action) <==> p == "s3:*" || Glob(p, action)
  {
    TrailingStarIsGlob(p, action);
    if p == "*" {
      assert TrimSuffix(p, "*") == "";
    }
  }

  /** Resources match as globs over normalized names; a final slash and star are just one more prefix. */
  lemma ResourceIsGlob(p: string, r: string, bucket: string)
    requires TrailingStarOnly(NormalizeResourceARN(p, bucket))
    ensures MatchResource(p, r, bucket) <==>
            p == r || p == "*" || Glob(NormalizeResourceARN(p, bucket), NormalizeResourceARN(r, bucket))
  {
    var np, nr := NormalizeResourceARN(p, bucket), NormalizeResourceARN(r, bucket);
    TrailingStarIsGlob(np, nr);
    if HasSuffix(np, "/*") {
      assert np[|np| - 1..] == "*";
      assert TrimSuffix(np, "/*") + "/" == TrimSuffix(np, "*");
    }
  }

  /** The pattern with every '*' and '?' replaced by one character. */
  function Instance(p: string, c: char): string {
    if p == "" then "" else [if p[0] == '*' || p[0] == '?' then c else p[0]] + Instance(p[1..], c)
  }

  lemma {:induction false} InstanceMatches(p: string, c: char)
    ensures Glob(p, Instance(p, c))
    decreases |p|
  {
    if p != "" {
      InstanceMatches(p[1..], c);
      var s := Instance(p, c);
      assert s[1..] == Instance(p[1..], c);
      if p[0] == '*' {
        assert Glob(p, s[1..]);
      }
    }
  }

  lemma {:induction false} InstanceAt(p: string, c: char, i: nat)
    requires i < |p|
    ensures |Instance(p, c)| == |p|
    ensures Instance(p, c)[i] == if p[i] == '*' || p[i] == '?' then c else p[i]
    decreases |p|
  {
    if |p| > 1 {
      InstanceAt(p[1..], c, if i == 0 then 0 else i - 1);
    }
  }

  lemma {:induction false} InstanceIsPlain(p: string, c: char)
    requires c != '*' && c != '?'
    ensures Plain(Instance(p, c))
    decreases |p|
  {
    if p != "" {
      InstanceIsPlain(p[1..], c);
    }
  }

  lemma PlainHasPlainPrefixes(prefix: string, s: string)
    requires Plain(s) && prefix <= s
    ensures Plain(prefix)
  {
    assert forall c :: c in prefix ==> c in s;
  }

  /** An action pattern means its glob exactly when its only special character is a final star and it is not "s3:*". */
  lemma ActionIsGlobExactly(p: string)
    ensures (forall action :: MatchAction(p, action) <==> Glob(p, action)) <==> TrailingStarOnly(p) && p != "s3:*"
  {
    if TrailingStarOnly(p) {
      forall action ensures MatchAction(p, action) <==> p == "s3:*" || Glob(p, action) {
        ActionIsGlob(p, action);
      }
      if p == "s3:*" {
        assert MatchAction(p, "") && !Glob(p, "");
      }
    } else {
      var s := Instance(p, 'a');
      InstanceMatches(p, 'a');
      InstanceIsPlain(p, 'a');
      UnplainPrefixFails(p, s);
      assert !MatchAction(p, s) && Glob(p, s);
    }
  }

  lemma UnplainPrefixFails(p: string, s: string)
    requires !TrailingStarOnly(p) && Plain(s)
    ensures p != s && p != "*" && p != "s3:*" && !(TrimSuffix(p, "*") <= s)
  {
    if TrimSuffix(p, "*") <= s {
      PlainHasPlainPrefixes(TrimSuffix(p, "*"), s);
    }
    assert TrimSuffix("*", "*") == "" && TrimSuffix("s3:*", "*") == "s3:";
  }

  predicate MeansGlob(p: string, r: string, bucket: string) {
    MatchResource(p, r, bucket) <==>
    p == r || p == "*" || Glob(NormalizeResourceARN(p, bucket), NormalizeResourceARN(r, bucket))
  }

  const ARN := "arn:aws:s3:::"

  lemma ARNIsPlain()
    ensures Plain(ARN)
  {
  }

  /** A request that the pattern's glob covers, that is its own normal form and has nothing special in it. */
  lemma CoveredRequest(np: string, bucket: string) returns (r: string)
    requires !Plain(np) && (ARN <= np || !(bucket <= np))
    ensures Plain(r) && Glob(np, r) && NormalizeResourceARN(r, bucket) == r
  {
    var i := FirstSpecial(np);
    var c := if i < |bucket| && bucket[i] == 'a' then 'b' else 'a';
    r := Instance(np, c);
    InstanceMatches(np, c);
    InstanceIsPlain(np, c);
    if ARN <= np {
      InstanceKeepsPrefix(ARN, np, c);
    } else if bucket <= r {
      InstanceAt(np, c, i);
      BucketWasPrefix(np, c, bucket, i);
    }
  }

  lemma FirstSpecial(p: string) returns (i: nat)
    requires !Plain(p)
    ensures i < |p| && (p[i] == '*' || p[i] == '?') && Plain(p[..i])
  {
    i := 0;
    while p[i] != '*' && p[i] != '?'
      invariant i < |p| && Plain(p[..i]) && !Plain(p[i..])
      decreases |p| - i
    {
      assert p[..i + 1] == p[..i] + [p[i]] && p[i..] == [p[i]] + p[i + 1..];
      i := i + 1;
    }
  }

  lemma InstanceKeepsPrefix(prefix: string, p: string, c: char)
    requires Plain(prefix) && prefix <= p
    ensures prefix <= Instance(p, c)
  {
    if p != "" {
      InstanceAt(p, c, 0);
    }
    forall k | 0 <= k < |prefix| ensures Instance(p, c)[k] == prefix[k] {
      InstanceAt(p, c, k);
      assert prefix[k] in prefix;
    }
  }

  lemma BucketWasPrefix(np: string, c: char, bucket: string, i: nat)
    requires i < |np| && (np[i] == '*' || np[i] == '?') && Plain(np[..i])
    requires bucket <= Instance(np, c) && (i < |bucket| ==> bucket[i] != c)
    ensures bucket <= np
  {
    InstanceAt(np, c, i);
    forall k | 0 <= k < |bucket| ensures np[k] == bucket[k] {
      InstanceAt(np, c, k);
      if k < i { assert np[..i][k] in np[..i]; }
    }
  }

  /** A resource pattern means its glob exactly when it is "*" or has nothing special but a final star. */
  lemma ResourceIsGlobExactly(p: string, bucket: string)
    ensures (forall r :: MeansGlob(p, r, bucket)) <==> p == "*" || TrailingStarOnly(NormalizeResourceARN(p, bucket))
  {
    var np := NormalizeResourceARN(p, bucket);
    if TrailingStarOnly(np) {
      forall r ensures MeansGlob(p, r, bucket) {
        ResourceIsGlob(p, r, bucket);
      }
    } else if p != "*" {
      TrimmedIsSpecial(np);
      var r := CoveredRequest(np, bucket);
      UnplainPrefixFails(np, r);
      SlashStarIsStar(np);
      NormalFormIsSpecial(p, bucket);
      assert !MatchResource(p, r, bucket);
      assert !MeansGlob(p, r, bucket);
    }
  }

  lemma TrimmedIsSpecial(p: string)
    requires !TrailingStarOnly(p)
    ensures !Plain(p)
  {
    if Plain(p) {
      PlainHasPlainPrefixes(TrimSuffix(p, "*"), p);
    }
  }

  lemma NormalFormIsSpecial(p: string, bucket: string)
    requires !Plain(NormalizeResourceARN(p, bucket))
    ensures !Plain(p)
  {
    ARNIsPlain();
  }

  lemma SlashStarIsStar(p: string)
    ensures HasSuffix(p, "/*") ==> HasSuffix(p, "*") && TrimSuffix(p, "/*") + "/" == TrimSuffix(p, "*")
  {
    if HasSuffix(p, "/*") {
      assert p[|p| - 1..] == "*";
    }
  }

  /** The operator that negates `op`. */
  function Negated(op: string): string {
    match op
    case "stringequals" => "stringnotequals"
    case "stringequalsignorecase" => "stringnotequalsignorecase"
    case "stringlike" => "stringnotlike"
    case "ipaddress" => "notipaddress"
    case "arnequals" => "arnnotequals"
    case "arnlike" => "arnnotlike"
    case _ => "numericnotequals"
  }

  /**
   * An operator and its negation never both hold, and one of them does exactly when there is
   * an expected string and, for addresses, the request value parses.
   */
  lemma NegatedOperator(lib: Library, op: string, actual: string, expected: Json)
    requires op in POSITIVE && op != "bool"
    requires lib.lower(op) == op && lib.lower(Negated(op)) == Negated(op)
    ensures !(EvaluateOperator(lib, op, actual, expected) && EvaluateOperator(lib, Negated(op), actual, expected))
    ensures (EvaluateOperator(lib, op, actual, expected) || EvaluateOperator(lib, Negated(op), actual, expected))
            <==> ToStringSlice(expected) != [] && (op == "ipaddress" ==> lib.parsesIP(actual))
  {
    var values := ToStringSlice(expected);
    forall i | 0 <= i < |values|
      ensures Hits(lib, op, actual, values[i]) == Hits(lib, Negated(op), actual, values[i])
    {
    }
  }

  /** StringLike has its documented meaning for every request value without a '*'. */
  lemma StringLikeMeansGlob(lib: Library, actual: string, expected: Json)
    requires lib.lower("stringlike") == "stringlike" && '*' !in actual
    ensures EvaluateOperator(lib, "stringlike", actual, expected) <==>
            exists p :: p in ToStringSlice(expected) && Glob(p, actual)
  {
    RightForEveryPattern(actual);
    var values := ToStringSlice(expected);
    if EvaluateOperator(lib, "stringlike", actual, expected) {
      var i :| 0 <= i < |values| && Hits(lib, "stringlike", actual, values[i]);
      assert values[i] in values && Glob(values[i], actual);
    }
    if p :| p in values && Glob(p, actual) {
      var i :| 0 <= i < |values| && values[i] == p;
      assert Hits(lib, "stringlike", actual, values[i]);
    }
  }

  // ----- when a statement applies -----

  /** The text is the JSON string, or one of the strings of the JSON list. */
  predicate Lists(v: Json, s: string) {
    v == Str(s) || (v.Arr? && exists i :: 0 <= i < |v.items| && v.items[i] == Str(s))
  }

  /** "*" or the caller: as a string, or under "AWS", or under "CanonicalUser" where there is no "AWS". */
  predicate Names(principal: Json, who: string) {
    || principal == Str("*") || principal == Str(who)
    || (principal.Obj? && "AWS" in principal.fields &&
        (Lists(principal.fields["AWS"], "*") || Lists(principal.fields["AWS"], who)))
    || (principal.Obj? && "AWS" !in principal.fields && "CanonicalUser" in principal.fields &&
        (Lists(principal.fields["CanonicalUser"], "*") || Lists(principal.fields["CanonicalUser"], who)))
  }

  /** The pattern is a prefix of the text and a star. */
  ghost predicate StarCovers(p: string, s: string) {
    exists prefix :: p == prefix + "*" && prefix <= s
  }

  /** Some action pattern of the statement is the action, "*", "s3:*", or a prefix of it and a star. */
  ghost predicate CoversAction(st: Statement, action: string) {
    exists p :: Lists(st.action, p) && (p == action || p == "*" || p == "s3:*" || StarCovers(p, action))
  }

  /** The name with the ARN prefix where it has none and starts with the bucket's name. */
  function NormalForm(name: string, bucket: string): string {
    if !(ARN <= name) && bucket <= name then ARN + name else name
  }

  /** Some resource pattern is the resource or "*", or in normal form equal to it or a prefix of it and a star. */
  ghost predicate CoversResource(st: Statement, resource: string, bucket: string) {
    exists p :: Lists(st.resource, p) && CoversName(p, resource, bucket)
  }

  ghost predicate CoversName(p: string, resource: string, bucket: string) {
    p == resource || p == "*" || NormalForm(p, bucket) == NormalForm(resource, bucket) ||
    StarCovers(NormalForm(p, bucket), NormalForm(resource, bucket))
  }

  /** Every entry of every operator holds of the request. */
  predicate ConditionsHold(lib: Library, st: Statement, req: Request) {
    forall op :: op in st.condition ==>
      st.condition[op].Obj? &&
      forall key :: key in st.condition[op].fields ==>
        EvaluateOperator(lib, op, ResolveConditionKey(lib, key, req), st.condition[op].fields[key])
  }

  lemma PrincipalExactly(principal: Json, who: string)
    ensures PrincipalMatches(principal, who) <==> Names(principal, who)
  {
  }

  lemma SuffixStar(p: string, s: string)
    ensures (HasSuffix(p, "*") && TrimSuffix(p, "*") <= s) <==> StarCovers(p, s)
  {
    if HasSuffix(p, "*") && TrimSuffix(p, "*") <= s {
      assert p == TrimSuffix(p, "*") + "*";
    }
    if prefix :| p == prefix + "*" && prefix <= s {
      assert p[|p| - 1..] == "*" && TrimSuffix(p, "*") == prefix;
    }
  }

  lemma ActionExactly(st: Statement, action: string)
    ensures ActionMatches(st.action, action) <==> CoversAction(st, action)
  {
    forall p ensures MatchAction(p, action) <==>
      p == action || p == "*" || p == "s3:*" || StarCovers(p, action)
    {
      SuffixStar(p, action);
    }
    if ActionMatches(st.action, action) {
      var p := if st.action.Str? then st.action.s else
        var i :| 0 <= i < |st.action.items| && st.action.items[i].Str? && MatchAction(st.action.items[i].s, action);
        st.action.items[i].s;
      assert Lists(st.action, p);
    }
  }

  lemma NormalFormExactly(name: string, bucket: string)
    ensures NormalizeResourceARN(name, bucket) == NormalForm(name, bucket)
  {
    if bucket + "/" <= name {
      assert bucket <= name;
    }
  }

  lemma SlashStarCovers(n: string, r: string)
    ensures (HasSuffix(n, "/*") && TrimSuffix(n, "/*") + "/" <= r) || (HasSuffix(n, "*") && !HasSuffix(n, "/*") && TrimSuffix(n, "*") <= r)
            <==> StarCovers(n, r)
  {
    SlashStarIsStar(n);
    SuffixStar(n, r);
  }

  lemma NameExactly(p: string, resource: string, bucket: string)
    ensures MatchResource(p, resource, bucket) <==> CoversName(p, resource, bucket)
  {
    NormalFormExactly(p, bucket);
    NormalFormExactly(resource, bucket);
    SlashStarCovers(NormalForm(p, bucket), NormalForm(resource, bucket));
  }

  lemma ResourceExactly(st: Statement, resource: string, bucket: string)
    ensures ResourceMatches(st.resource, resource, bucket) <==> CoversResource(st, resource, bucket)
  {
    forall p ensures MatchResource(p, resource, bucket) <==> CoversName(p, resource, bucket) {
      NameExactly(p, resource, bucket);
    }
    if ResourceMatches(st.resource, resource, bucket) {
      var p := if st.resource.Str? then st.resource.s else
        var i :| 0 <= i < |st.resource.items| && st.resource.items[i].Str? && MatchResource(st.resource.items[i].s, resource, bucket);
        st.resource.items[i].s;
      assert Lists(st.resource, p);
    }
  }

  /** A statement applies exactly when it names the caller, covers action and resource, and all its conditions hold. */
  lemma StatementExactly(lib: Library, st: Statement, req: Request)
    ensures StatementMatches(lib, st, req) <==>
            Names(st.principal, req.principal) && CoversAction(st, req.action) &&
            CoversResource(st, req.resource, req.bucket) && ConditionsHold(lib, st, req)
  {
    PrincipalExactly(st.principal, req.principal);
    ActionExactly(st, req.action);
    ResourceExactly(st, req.resource, req.bucket);
  }

  /** A policy no statement of which names "*" or the caller decides Deny. */
  lemma UnnamedCallerIsDenied(lib: Library, statements: seq<Statement>, req: Request)
    requires forall i :: 0 <= i < |statements| ==> !Names(statements[i].principal, req.principal)
    ensures Decide(lib, statements, req) == Deny
  {
    forall i | 0 <= i < |statements| ensures !StatementMatches(lib, statements[i], req) {
      StatementExactly(lib, statements[i], req);
    }
  }

  /** A single statement that applies gives its effect, and nothing else does. */
  lemma OneStatementDecides(lib: Library, st: Statement, req: Request)
    ensures Decide(lib, [st], req) == Allow <==>
            st.effect == "Allow" && Names(st.principal, req.principal) && CoversAction(st, req.action) &&
            CoversResource(st, req.resource, req.bucket) && ConditionsHold(lib, st, req)
    ensures Decide(lib, [st], req) == ExplicitDeny <==>
            st.effect == "Deny" && Names(st.principal, req.principal) && CoversAction(st, req.action) &&
            CoversResource(st, req.resource, req.bucket) && ConditionsHold(lib, st, req)
  {
    StatementExactly(lib, st, req);
    assert [st][0] == st;
    assert Applies(lib, [st], req, "Allow") <==> st.effect == "Allow" && StatementMatches(lib, st, req);
    assert Applies(lib, [st], req, "Deny") <==> st.effect == "Deny" && StatementMatches(lib, st, req);
  }

  /** One entry that fails, or an operator that is no object, takes the statement out of the decision. */
  lemma FailedConditionSilences(lib: Library, statements: seq<Statement>, i: nat, req: Request, op: string, key: string)
    requires i < |statements| && op in statements[i].condition
    requires var block := statements[i].condition[op];
             !block.Obj? || (key in block.fields && !EvaluateOperator(lib, op, ResolveConditionKey(lib, key, req), block.fields[key]))
    ensures Decide(lib, statements, req) == Decide(lib, statements[..i] + statements[i + 1..], req)
  {
    StatementExactly(lib, statements[i], req);
    assert !StatementMatches(lib, statements[i], req);
    SilentStatement(lib, statements, i, req, "Deny");
    SilentStatement(lib, statements, i, req, "Allow");
  }

  lemma SilentStatement(lib: Library, statements: seq<Statement>, i: nat, req: Request, effect: string)
    requires i < |statements| && !StatementMatches(lib, statements[i], req)
    ensures Applies(lib, statements, req, effect) <==> Applies(lib, statements[..i] + statements[i + 1..], req, effect)
  {
    var rest := statements[..i] + statements[i + 1..];
    if j :| 0 <= j < |statements| && statements[j].effect == effect && StatementMatches(lib, statements[j], req) {
      assert rest[if j < i then j else j - 1] == statements[j];
    }
    if j :| 0 <= j < |rest| && rest[j].effect == effect && StatementMatches(lib, rest[j], req) {
      assert rest[j] == statements[if j < i then j else j + 1];
    }
  }

  // ----- what the operators and keys mean -----

  lemma {:induction false} StringsOfExactly(items: seq<Json>, s: string)
    ensures s in StringsOf(items) <==> exists i :: 0 <= i < |items| && items[i] == Str(s)
    decreases |items|
  {
    if items != [] {
      StringsOfExactly(items[1..], s);
      if i :| 0 <= i < |items| && items[i] == Str(s) && i > 0 { assert items[1..][i - 1] == Str(s); }
      if i :| 0 <= i < |items[1..]| && items[1..][i] == Str(s) { assert items[i + 1] == Str(s); }
    }
  }

  lemma ExpectedExactly(v: Json, s: string)
    ensures s in ToStringSlice(v) <==> Lists(v, s)
  {
    if v.Arr? {
      StringsOfExactly(v.items, s);
    }
  }

  /** What one expected value means under the operators that accept a match. */
  ghost predicate Satisfies(lib: Library, op: string, actual: string, expected: string) {
    || (op in {"stringequals", "numericequals"} && actual == expected)
    || (op in {"stringequalsignorecase", "bool"} && lib.equalFold(actual, expected))
    || (op in {"stringlike", "arnequals", "arnlike"} && WildcardMatches(expected, actual))
    || (op == "ipaddress" && lib.parsesIP(actual) && lib.inRange(actual, expected))
  }

  /** An accepting operator holds exactly when one of the expected strings satisfies it; an unknown one never does. */
  lemma OperatorExactly(lib: Library, op: string, actual: string, expected: Json)
    requires lib.lower(op) == op && op !in NEGATIVE
    ensures EvaluateOperator(lib, op, actual, expected) <==> exists s :: Lists(expected, s) && Satisfies(lib, op, actual, s)
  {
    var values := ToStringSlice(expected);
    forall s ensures s in values <==> Lists(expected, s) {
      ExpectedExactly(expected, s);
    }
    if EvaluateOperator(lib, op, actual, expected) {
      var i :| 0 <= i < |values| && Hits(lib, op, actual, values[i]);
      assert Lists(expected, values[i]) && Satisfies(lib, op, actual, values[i]);
    }
    if s :| Lists(expected, s) && Satisfies(lib, op, actual, s) {
      var i :| 0 <= i < |values| && values[i] == s;
      assert Hits(lib, op, actual, values[i]);
    }
  }

  /** The two keys that are about the request itself, in any case and whatever the context says. */
  lemma RequestKeysExactly(lib: Library, key: string, req: Request)
    ensures lib.lower(key) == "aws:sourceip" ==> ResolveConditionKey(lib, key, req) == req.sourceIP
    ensures lib.lower(key) == "aws:securetransport" ==>
            ResolveConditionKey(lib, key, req) == if req.secureTransport then "true" else "false"
  {
  }

  /** Every other key is looked up in the context, as written and then in any case; a missing one is empty. */
  lemma ContextKeysExactly(lib: Library, key: string, req: Request)
    requires lib.lower(key) !in {"aws:sourceip", "aws:securetransport"}
    ensures key in req.context ==> ResolveConditionKey(lib, key, req) == req.context[key]
    ensures key !in req.context && lib.lower(key) !in (set c | c in req.context :: lib.lower(c)) ==>
            ResolveConditionKey(lib, key, req) == ""
    ensures key !in req.context && lib.lower(key) in (set c | c in req.context :: lib.lower(c)) ==>
            ResolveConditionKey(lib, key, req) == lib.foldedLookup(req.context, lib.lower(key))
  {
  }
}
