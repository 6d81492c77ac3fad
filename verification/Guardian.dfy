/** The rule engine. Models `check_connection` and `check_query` of guardian.rs. */
module Guardian {
  import opened Bytes
  import opened Address
  import opened Tokens
  import opened ClockWindow

  datatype Action = Allow | Inspect | Deny

  /** A rule. An absent list matches anything. `ips` holds each entry as parsed:
      an entry that is not a CIDR block is `None` and matches nothing. */
  datatype Rule = Rule(
    action: Action,
    ips: Option<seq<Option<Cidr>>>,
    users: Option<seq<string>>,
    databases: Option<seq<string>>,
    timeRange: Option<string>,
    blockQueries: Option<seq<seq<byte>>>,
    blockTables: Option<seq<seq<byte>>>)

  datatype Context = Context(action: Action, blockQueries: seq<seq<byte>>, blockTables: seq<seq<byte>>)

  /** Who is connecting, and at which minute of the day. */
  datatype Visitor = Visitor(address: IpAddr, user: string, database: string, now: Minute)

  const DENIED := Context(Deny, [], [])
  const UNMATCHED := Context(Inspect, [], [])

  // ---- Connections -------------------------------------------------------

  predicate MatchesAddress(ips: seq<Option<Cidr>>, a: IpAddr) {
    exists i :: 0 <= i < |ips| && ips[i].Some? && Contains(ips[i].value, a)
  }

  predicate Matches(r: Rule, v: Visitor) {
    && (r.ips.Some? ==> MatchesAddress(r.ips.value, v.address))
    && (r.users.Some? ==> v.user in r.users.value)
    && (r.databases.Some? ==> v.database in r.databases.value)
    && (r.timeRange.Some? ==> TimeInRange(Clock(v.now), r.timeRange.value))
  }

  function ListOf(o: Option<seq<seq<byte>>>): seq<seq<byte>> {
    match o
    case Some(l) => l
    case None => []
  }

  function ContextOf(r: Rule): Context {
    Context(r.action, ListOf(r.blockQueries), ListOf(r.blockTables))
  }

  /** `i` is the first rule that passes all four tests. */
  predicate IsFirstMatch(rules: seq<Rule>, v: Visitor, i: nat) {
    i < |rules| && Matches(rules[i], v) && forall j :: 0 <= j < i ==> !Matches(rules[j], v)
  }

  method MatchesAnyBlock(ips: seq<Option<Cidr>>, a: IpAddr) returns (matched: bool)
    ensures matched <==> MatchesAddress(ips, a)
  {
    for i := 0 to |ips|
      invariant forall j :: 0 <= j < i ==> !(ips[j].Some? && Contains(ips[j].value, a))
    {
      if ips[i].Some? && Contains(ips[i].value, a) {
        return true;
      }
    }
    return false;
  }

  /** An address that does not parse is denied; otherwise the first matching rule
      decides; without one the connection is inspected against nothing. */
  method CheckConnection(rules: seq<Rule>, ip: string, user: string, database: string, now: Minute)
    returns (context: Context)
    ensures ParseIp(ip).None? ==> context == DENIED
    ensures ParseIp(ip).Some? ==>
      var v := Visitor(ParseIp(ip).value, user, database, now);
      && (forall i: nat :: IsFirstMatch(rules, v, i) ==> context == ContextOf(rules[i]))
      && ((forall i :: 0 <= i < |rules| ==> !Matches(rules[i], v)) ==> context == UNMATCHED)
    ensures ParseIp(ip).Some? ==>
      var v := Visitor(ParseIp(ip).value, user, database, now);
      forall i: nat, query :: IsFirstMatch(rules, v, i) ==> (!Verdict(query, context) <==> Refuses(rules[i], query))
    ensures context == Decide(rules, ip, user, database, now)
  {
    forall query {
      QueriesUnderTheDecision(rules, ip, user, database, now, query);
    }
    var parsed := ParseIp(ip);
    if parsed.None? {
      return DENIED;
    }
    ghost var v := Visitor(parsed.value, user, database, now);
    var current := Clock(now);
    var i := 0;
    assert rules[0..] == rules;
    while i < |rules|
      invariant 0 <= i <= |rules|
      invariant forall j :: 0 <= j < i ==> !Matches(rules[j], v)
      invariant FirstContext(rules, v) == FirstContext(rules[i..], v)
    {
      var rule := rules[i];
      assert rules[i..][1..] == rules[i + 1..];
      i := i + 1;
      if rule.ips.Some? {
        var matched := MatchesAnyBlock(rule.ips.value, parsed.value);
        if !matched {
          continue;
        }
      }
      if rule.users.Some? && user !in rule.users.value {
        continue;
      }
      if rule.databases.Some? && database !in rule.databases.value {
        continue;
      }
      if rule.timeRange.Some? && !TimeInRange(current, rule.timeRange.value) {
        continue;
      }
      return ContextOf(rule);
    }
    return UNMATCHED;
  }

  /** The same decision as a function of the rule list. */
  function FirstContext(rules: seq<Rule>, v: Visitor): Context {
    if rules == [] then UNMATCHED
    else if Matches(rules[0], v) then ContextOf(rules[0])
    else FirstContext(rules[1..], v)
  }

  function Decide(rules: seq<Rule>, ip: string, user: string, database: string, now: Minute): Context {
    match ParseIp(ip)
    case None => DENIED
    case Some(a) => FirstContext(rules, Visitor(a, user, database, now))
  }

  /** Some entry of the list, if there is one, occurs in the query. */
  predicate Blocks(list: Option<seq<seq<byte>>>, query: seq<byte>) {
    list.Some? && exists i :: 0 <= i < |list.value| && Occurs(query, list.value[i])
  }

  /** What a rule says of a query, once it matches. */
  predicate Refuses(r: Rule, query: seq<byte>) {
    || r.action.Deny?
    || (r.action.Inspect? && (Blocks(r.blockQueries, query) || Blocks(r.blockTables, query)))
  }

  lemma BlocksIff(list: Option<seq<seq<byte>>>, query: seq<byte>)
    ensures Blocks(list, query) <==> AnyOccurs(ListOf(list), query)
  {
    if AnyOccurs(ListOf(list), query) {
      var n :| n in ListOf(list) && Occurs(query, n);
      var i :| 0 <= i < |list.value| && list.value[i] == n;
    }
  }

  lemma {:induction false} FirstMatchDecides(rules: seq<Rule>, v: Visitor, i: nat)
    requires IsFirstMatch(rules, v, i)
    ensures FirstContext(rules, v) == ContextOf(rules[i])
  {
    if i > 0 {
      assert rules[1..][i - 1] == rules[i];
      FirstMatchDecides(rules[1..], v, i - 1);
    }
  }

  /** What the decision means for a query, in the rule's own fields. Under the first rule
      that matches, a query is refused exactly when the rule denies, or inspects and an
      entry of either of its block lists occurs. An address that does not parse is
      denied everything; without a matching rule nothing is refused. */
  lemma QueriesUnderTheDecision(rules: seq<Rule>, ip: string, user: string, database: string, now: Minute, query: seq<byte>)
    ensures var context := Decide(rules, ip, user, database, now);
      match ParseIp(ip)
      case None => context.action.Deny? && !Verdict(query, context)
      case Some(address) =>
        var v := Visitor(address, user, database, now);
        && (forall i: nat :: IsFirstMatch(rules, v, i) ==>
              context.action == rules[i].action && (!Verdict(query, context) <==> Refuses(rules[i], query)))
        && ((forall i: nat :: !IsFirstMatch(rules, v, i)) ==> context.action.Inspect? && Verdict(query, context))
  {
    if ParseIp(ip).Some? {
      var v := Visitor(ParseIp(ip).value, user, database, now);
      forall i: nat | IsFirstMatch(rules, v, i) ensures FirstContext(rules, v) == ContextOf(rules[i]) {
        FirstMatchDecides(rules, v, i);
        BlocksIff(rules[i].blockQueries, query);
        BlocksIff(rules[i].blockTables, query);
      }
      if forall i: nat :: !IsFirstMatch(rules, v, i) {
        NoFirstMatch(rules, v);
      }
    }
  }

  lemma {:induction false} NoFirstMatch(rules: seq<Rule>, v: Visitor)
    requires forall i: nat :: !IsFirstMatch(rules, v, i)
    ensures FirstContext(rules, v) == UNMATCHED
  {
    if rules != [] {
      assert !IsFirstMatch(rules, v, 0);
      forall i: nat ensures !IsFirstMatch(rules[1..], v, i) {
        if IsFirstMatch(rules[1..], v, i) {
          assert forall j :: 0 < j < i + 1 ==> rules[j] == rules[1..][j - 1];
          assert IsFirstMatch(rules, v, i + 1);
        }
      }
      NoFirstMatch(rules[1..], v);
    }
  }

  lemma {:induction false} FirstContextSkips(front: seq<Rule>, back: seq<Rule>, v: Visitor)
    ensures FirstContext(front + back, v) ==
      if exists i :: 0 <= i < |front| && Matches(front[i], v) then FirstContext(front, v) else FirstContext(back, v)
  {
    if front == [] {
      assert front + back == back;
    } else {
      FirstContextSkips(front[1..], back, v);
      assert (front + back)[1..] == front[1..] + back;
      if exists i :: 0 <= i < |front| && Matches(front[i], v) {
        var i :| 0 <= i < |front| && Matches(front[i], v);
        if !Matches(front[0], v) {
          assert front[1..][i - 1] == front[i];
        }
      } else {
        assert forall i :: 0 <= i < |front[1..]| ==> front[1..][i] == front[i + 1];
      }
    }
  }

  /** Deleting a rule that does not match never changes the decision. */
  lemma NonMatchingRulesAreInert(front: seq<Rule>, r: Rule, back: seq<Rule>, v: Visitor)
    requires !Matches(r, v)
    ensures FirstContext(front + [r] + back, v) == FirstContext(front + back, v)
  {
    FirstContextSkips(front, [r] + back, v);
    FirstContextSkips([r], back, v);
    FirstContextSkips(front, back, v);
    assert front + [r] + back == front + ([r] + back);
  }

  /** Whatever follows the first match never changes the decision. */
  lemma RulesAfterAMatchAreInert(front: seq<Rule>, r: Rule, back: seq<Rule>, back': seq<Rule>, v: Visitor)
    requires Matches(r, v)
    ensures FirstContext(front + [r] + back, v) == FirstContext(front + [r] + back', v)
  {
    assert (front + [r])[|front|] == r;
    FirstContextSkips(front + [r], back, v);
    FirstContextSkips(front + [r], back', v);
  }

  /** A block of one family never admits an address of the other, so a rule that
      lists only one family's blocks never matches the other family. */
  lemma OneFamilyRulesMissTheOther(r: Rule, v: Visitor, f: Family)
    requires r.ips.Some? && v.address.family != f
    requires forall i :: 0 <= i < |r.ips.value| && r.ips.value[i].Some? ==> r.ips.value[i].value.family == f
    ensures !Matches(r, v)
  {
  }

  // ---- Queries -----------------------------------------------------------

  predicate AnyOccurs(needles: seq<seq<byte>>, query: seq<byte>) {
    exists n :: n in needles && Occurs(query, n)
  }

  predicate Verdict(query: seq<byte>, c: Context) {
    match c.action
    case Allow => true
    case Deny => false
    case Inspect => !AnyOccurs(c.blockQueries, query) && !AnyOccurs(c.blockTables, query)
  }

  method ContainsAny(query: seq<byte>, needles: seq<seq<byte>>) returns (found: bool)
    ensures found <==> AnyOccurs(needles, query)
  {
    for i := 0 to |needles|
      invariant forall j :: 0 <= j < i ==> !Occurs(query, needles[j])
    {
      var hit := ContainsToken(query, needles[i]);
      if hit {
        return true;
      }
    }
    return false;
  }

  method CheckQuery(query: seq<byte>, context: Context) returns (pass: bool)
    ensures pass <==> Verdict(query, context)
  {
    if context.action.Allow? {
      return true;
    }
    if context.action.Deny? {
      return false;
    }
    var command := ContainsAny(query, context.blockQueries);
    if command {
      return false;
    }
    var table := ContainsAny(query, context.blockTables);
    return !table;
  }

  predicate NulFree(needles: seq<seq<byte>>) {
    forall n :: n in needles ==> NUL !in n
  }

  predicate NulFreeContext(c: Context) {
    NulFree(c.blockQueries) && NulFree(c.blockTables)
  }

  lemma AnyOccursBySegments(needles: seq<seq<byte>>, query: seq<byte>)
    requires NulFree(needles)
    ensures AnyOccurs(needles, query) <==> exists p :: p in SplitOn(query, NUL) && AnyOccurs(needles, p)
  {
    if AnyOccurs(needles, query) {
      var n :| n in needles && Occurs(query, n);
      SearchBySegments(query, n);
      var p :| p in SplitOn(query, NUL) && Occurs(p, n);
      assert AnyOccurs(needles, p);
    }
    if exists p :: p in SplitOn(query, NUL) && AnyOccurs(needles, p) {
      var p :| p in SplitOn(query, NUL) && AnyOccurs(needles, p);
      var n :| n in needles && Occurs(p, n);
      SearchBySegments(query, n);
    }
  }

  /** A payload passes exactly when each of its NUL-separated segments passes. */
  lemma VerdictBySegments(query: seq<byte>, c: Context)
    requires NulFreeContext(c)
    ensures Verdict(query, c) <==> forall p :: p in SplitOn(query, NUL) ==> Verdict(p, c)
  {
    AnyOccursBySegments(c.blockQueries, query);
    AnyOccursBySegments(c.blockTables, query);
    assert SplitOn(query, NUL)[0] in SplitOn(query, NUL);
  }

  lemma VerdictAcrossNul(a: seq<byte>, b: seq<byte>, c: Context)
    requires NulFreeContext(c)
    ensures Verdict(a + [NUL] + b, c) <==> Verdict(a, c) && Verdict(b, c)
  {
    var h := a + [NUL] + b;
    assert h[..|a|] == a && h[|a|] == NUL && h[|a| + 1..] == b;
    forall n | n in c.blockQueries || n in c.blockTables
      ensures Occurs(h, n) <==> Occurs(a, n) || Occurs(b, n)
    {
      NulSeparates(h, |a|, n);
    }
  }

  /** A Query's trailing NUL never changes its verdict. */
  lemma TrailingNulIsInert(query: seq<byte>, c: Context)
    requires NulFreeContext(c)
    ensures Verdict(query + [NUL], c) <==> Verdict(query, c)
  {
    VerdictAcrossNul(query, [], c);
    assert query + [NUL] + [] == query + [NUL];
  }

  /** A Parse is refused whenever its statement alone would be, whatever statement
      name precedes it and whatever parameter types follow. */
  lemma ParseIsRefusedWithItsStatement(name: seq<byte>, statement: seq<byte>, types: seq<byte>, c: Context)
    requires NulFreeContext(c)
    ensures !Verdict(statement, c) ==> !Verdict(name + [NUL] + statement + [NUL] + types, c)
  {
    VerdictAcrossNul(statement, types, c);
    VerdictAcrossNul(name, statement + [NUL] + types, c);
    assert name + [NUL] + statement + [NUL] + types == name + [NUL] + (statement + [NUL] + types);
  }

  /** Every needle of `a` is in `b`, up to ASCII case. */
  predicate Covered(a: seq<seq<byte>>, b: seq<seq<byte>>) {
    forall n :: n in a ==> exists m :: m in b && EqFold(n, m)
  }

  /** Two lists with the same entries up to ASCII case, in any order. */
  predicate SameNeedles(a: seq<seq<byte>>, b: seq<seq<byte>>) {
    Covered(a, b) && Covered(b, a)
  }

  lemma AnyOccursUpToCase(a: seq<seq<byte>>, b: seq<seq<byte>>, q: seq<byte>, q': seq<byte>)
    requires Covered(a, b) && EqFold(q, q')
    ensures AnyOccurs(a, q) ==> AnyOccurs(b, q')
  {
    if AnyOccurs(a, q) {
      var n :| n in a && Occurs(q, n);
      var m :| m in b && EqFold(n, m);
      CaseIsIgnored(q, n, q', m);
    }
  }

  /** Verdicts ignore ASCII case on either side and the order of the block lists. */
  lemma VerdictIgnoresCaseAndOrder(q: seq<byte>, q': seq<byte>, c: Context, c': Context)
    requires EqFold(q, q') && c.action == c'.action
    requires SameNeedles(c.blockQueries, c'.blockQueries) && SameNeedles(c.blockTables, c'.blockTables)
    ensures Verdict(q, c) <==> Verdict(q', c')
  {
    AnyOccursUpToCase(c.blockQueries, c'.blockQueries, q, q');
    AnyOccursUpToCase(c.blockTables, c'.blockTables, q, q');
    AnyOccursUpToCase(c'.blockQueries, c.blockQueries, q', q);
    AnyOccursUpToCase(c'.blockTables, c.blockTables, q', q);
  }

  /** Reordering is a special case. */
  lemma ReorderingNeedles(a: seq<seq<byte>>, b: seq<seq<byte>>)
    requires multiset(a) == multiset(b)
    ensures SameNeedles(a, b)
  {
    forall n | n in a ensures n in b && EqFold(n, n) { assert n in multiset(a); }
    forall n | n in b ensures n in a && EqFold(n, n) { assert n in multiset(b); }
  }
}
