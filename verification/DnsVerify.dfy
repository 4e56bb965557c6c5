/** The polling loop that checks whether a host name is published and points at its tunnel. */
module DnsVerify {
  import opened Prelude
  import opened Text

  const TYPE_A: nat := 1
  const TYPE_CNAME: nat := 5
  const TYPE_AAAA: nat := 28
  const NXDOMAIN_RCODE: nat := 3

  datatype Answer = Answer(kind: nat, ttl: nat, data: string)

  datatype Response = Response(status: nat, answers: seq<Answer>)

  /** A record as Cloudflare's API reports it. */
  datatype ZoneRecord = ZoneRecord(kind: string, content: string)

  /** What the record lookup does, should it be needed. */
  datatype Lookup = NoLookup | Throws | Finds(records: seq<ZoneRecord>)

  datatype Got = Target(name: string) | Record(kind: string, name: string) | NothingInZone

  datatype Outcome =
    | Verified(cname: string, ttl: nat, proxied: bool)
    | WrongTarget(expected: string, got: Got)
    | NoRecord
    | NxDomain
    | Timeout
    | GaveUp

  function Clean(name: string): string {
    Lower(if name != [] && name[|name| - 1] == '.' then name[..|name| - 1] else name)
  }

  function Find<T>(s: seq<T>, p: T -> bool): Option<T> {
    if s == [] then None else if p(s[0]) then Some(s[0]) else Find(s[1..], p)
  }

  /** The element found is the first that satisfies `p`. */
  ghost predicate IsFirst<T>(s: seq<T>, p: T -> bool, i: int) {
    0 <= i < |s| && p(s[i]) && forall j :: 0 <= j < i ==> !p(s[j])
  }

  lemma {:induction false} FindIsFirst<T>(s: seq<T>, p: T -> bool, i: int)
    requires IsFirst(s, p, i)
    ensures Find(s, p) == Some(s[i])
  {
    if i == 0 {
    } else {
      assert !p(s[0]);
      assert IsFirst(s[1..], p, i - 1);
      FindIsFirst(s[1..], p, i - 1);
    }
  }

  lemma {:induction false} FindFinds<T>(s: seq<T>, p: T -> bool)
    ensures match Find(s, p)
            case Some(x) => exists i :: IsFirst(s, p, i) && s[i] == x
            case None => forall i :: 0 <= i < |s| ==> !p(s[i])
  {
    if s == [] {
    } else {
      if p(s[0]) {
        assert IsFirst(s, p, 0);
      } else {
        FindFinds(s[1..], p);
        if i :| IsFirst(s[1..], p, i) && Find(s[1..], p) == Some(s[1..][i]) {
          assert IsFirst(s, p, i + 1);
        }
      }
    }
  }

  predicate IsCname(a: Answer) {
    a.kind == TYPE_CNAME
  }

  predicate IsAddress(a: Answer) {
    a.kind == TYPE_A || a.kind == TYPE_AAAA
  }

  predicate IsCnameRecord(r: ZoneRecord) {
    Lower(r.kind) == "cname"
  }

  function Cnames(r: Response): (s: seq<Answer>) {
    Filter(r.answers, IsCname)
  }

  function Addresses(r: Response): (s: seq<Answer>) {
    Filter(r.answers, IsAddress)
  }

  /** The verdict on visible CNAMEs. */
  function JudgeChain(cnames: seq<Answer>, expected: string): Outcome
    requires cnames != []
  {
    var m := Find(cnames, (a: Answer) => EndsWith(Clean(a.data), expected));
    if m.Some? then Verified(Clean(m.value.data), m.value.ttl, false)
    else WrongTarget(expected, Target(Clean(cnames[0].data)))
  }

  /** The verdict on a name that only answers with edge addresses. */
  function JudgeProxied(address: Answer, expected: string, lookup: Lookup): Outcome {
    match lookup
    case NoLookup => Verified(Clean(address.data), address.ttl, true)
    case Throws => Verified(Clean(address.data), address.ttl, true)
    case Finds(records) =>
      var cname := Find(records, IsCnameRecord);
      if cname.Some? && EndsWith(Clean(cname.value.content), expected) then
        Verified(Clean(cname.value.content), address.ttl, true)
      else if cname.Some? then
        WrongTarget(expected, Record(cname.value.kind, Clean(cname.value.content)))
      else if records != [] then
        WrongTarget(expected, Record(records[0].kind, Clean(records[0].content)))
      else
        WrongTarget(expected, NothingInZone)
  }

  /** The response settles the matter: it answers something, or denies that the name exists. */
  predicate Decisive(r: Option<Response>) {
    r.Some? && (r.value.status == NXDOMAIN_RCODE || Cnames(r.value) != [] || Addresses(r.value) != [])
  }

  function Judge(r: Response, expected: string, lookup: Lookup): Outcome
    requires Decisive(Some(r))
  {
    if r.status == NXDOMAIN_RCODE then NxDomain
    else if Cnames(r) != [] then JudgeChain(Cnames(r), expected)
    else JudgeProxied(Addresses(r)[0], expected, lookup)
  }

  // ------------------------------------------------------------------------
  // The loop
  // ------------------------------------------------------------------------

  /** `responses(i)` is what the i-th query would get, nothing standing for no usable response. */
  ghost predicate FirstDecisive(responses: nat -> Option<Response>, k: nat) {
    Decisive(responses(k)) && forall j: nat :: j < k ==> !Decisive(responses(j))
  }

  method VerifyDns(suffix: string, attempts: int, responses: nat -> Option<Response>, lookup: Lookup)
    returns (outcome: Outcome, queries: nat, sleeps: nat)
    ensures attempts <= 0 ==> outcome == GaveUp && queries == 0 && sleeps == 0
    ensures attempts > 0 ==> outcome != GaveUp && 0 < queries <= attempts && sleeps == queries - 1
    ensures forall k: nat :: k < attempts && FirstDecisive(responses, k) ==>
                               outcome == Judge(responses(k).value, Clean(suffix), lookup) && queries == k + 1
    ensures attempts > 0 && (forall k: nat :: k < attempts ==> !Decisive(responses(k))) ==>
              queries == attempts && outcome == if responses(attempts - 1).None? then Timeout else NoRecord
  {
    var expected := Clean(suffix);
    queries, sleeps := 0, 0;
    var i := 0;
    while i < attempts
      invariant 0 <= i == queries == sleeps
      invariant forall j: nat :: j < i ==> !Decisive(responses(j))
      invariant i > 0 ==> i < attempts
    {
      var resp := responses(i);
      queries := queries + 1;
      if resp.None? {
        if i == attempts - 1 {
          return Timeout, queries, sleeps;
        }
        sleeps, i := sleeps + 1, i + 1;
        continue;
      }
      if resp.value.status == NXDOMAIN_RCODE {
        return NxDomain, queries, sleeps;
      }
      var cnames := Cnames(resp.value);
      var addresses := Addresses(resp.value);
      if cnames == [] && addresses == [] {
        if i < attempts - 1 {
          sleeps, i := sleeps + 1, i + 1;
          continue;
        }
        return NoRecord, queries, sleeps;
      }
      outcome := if cnames != [] then JudgeChain(cnames, expected)
                 else JudgeProxied(addresses[0], expected, lookup);
      return outcome, queries, sleeps;
    }
    return GaveUp, queries, sleeps;
  }

  // ------------------------------------------------------------------------
  // What the verdicts mean
  // ------------------------------------------------------------------------

  /** Names are compared in lower case and without one dot at the end. */
  lemma CleanExactly(name: string)
    ensures Clean(name + ".") == Lower(name)
    ensures name == [] || name[|name| - 1] != '.' ==> Clean(name) == Lower(name)
  {
    assert (name + ".")[..|name|] == name;
  }

  /** A response settles the matter if it denies the name or holds a CNAME, A or AAAA answer. */
  lemma DecisiveExactly(r: Response)
    ensures !Decisive(None)
    ensures Decisive(Some(r)) <==> r.status == 3 || exists a :: a in r.answers && a.kind in {5, 1, 28}
  {
    FilterKeeps(r.answers, IsCname);
    FilterKeeps(r.answers, IsAddress);
    if a :| a in r.answers && a.kind in {5, 1, 28} {
      assert IsCname(a) || IsAddress(a);
    }
    if Cnames(r) != [] {
      assert IsCname(Cnames(r)[0]) && Cnames(r)[0] in Cnames(r);
    }
    if Addresses(r) != [] {
      assert IsAddress(Addresses(r)[0]) && Addresses(r)[0] in Addresses(r);
    }
  }

  lemma {:induction false} FirstFiltered<T>(s: seq<T>, p: T -> bool) returns (i: nat)
    requires Filter(s, p) != []
    ensures IsFirst(s, p, i) && s[i] == Filter(s, p)[0]
  {
    if p(s[0]) {
      i := 0;
    } else {
      i := FirstFiltered(s[1..], p);
      i := i + 1;
    }
  }

  lemma FindCons<T>(x: T, rest: seq<T>, q: T -> bool)
    ensures Find([x] + rest, q) == if q(x) then Some(x) else Find(rest, q)
  {
    assert ([x] + rest)[1..] == rest;
  }

  /** Searching what a filter keeps finds the first element that passes both tests. */
  lemma {:induction false} FindFiltered<T>(s: seq<T>, p: T -> bool, q: T -> bool)
    ensures match Find(Filter(s, p), q)
            case Some(x) => exists i :: FirstOfBoth(s, p, q, i) && s[i] == x
            case None => forall i :: 0 <= i < |s| && p(s[i]) ==> !q(s[i])
  {
    if s == [] {
    } else {
      var rest := s[1..];
      FindFiltered(rest, p, q);
      FindCons(s[0], Filter(rest, p), q);
      assert [] + Filter(rest, p) == Filter(rest, p);
      if p(s[0]) && q(s[0]) {
        assert FirstOfBoth(s, p, q, 0);
      } else {
        assert Find(Filter(s, p), q) == Find(Filter(rest, p), q);
        if j :| FirstOfBoth(rest, p, q, j) && Find(Filter(rest, p), q) == Some(rest[j]) {
          assert FirstOfBoth(s, p, q, j + 1);
        }
      }
    }
  }

  ghost predicate FirstOfBoth<T>(s: seq<T>, p: T -> bool, q: T -> bool, i: int) {
    0 <= i < |s| && p(s[i]) && q(s[i]) && forall j :: 0 <= j < i && p(s[j]) ==> !q(s[j])
  }

  /** A verdict on visible CNAMEs names the first that ends with the target, or else the first of all. */
  lemma ChainExactly(r: Response, expected: string, lookup: Lookup)
    requires r.status != 3 && Cnames(r) != []
    ensures var v := Judge(r, expected, lookup);
            var matches := (a: Answer) => EndsWith(Clean(a.data), expected);
            || (exists i :: FirstOfBoth(r.answers, IsCname, matches, i) &&
                            v == Verified(Clean(r.answers[i].data), r.answers[i].ttl, false))
            || (&& (forall i :: 0 <= i < |r.answers| && IsCname(r.answers[i]) ==> !matches(r.answers[i]))
                && exists i :: IsFirst(r.answers, IsCname, i) &&
                               v == WrongTarget(expected, Target(Clean(r.answers[i].data))))
  {
    var matches := (a: Answer) => EndsWith(Clean(a.data), expected);
    FindFiltered(r.answers, IsCname, matches);
    var first := FirstFiltered(r.answers, IsCname);
    hide Clean, EndsWith, IsCname, IsAddress;
  }

  /**
   A verdict on edge addresses: the first address if nobody can say what is behind it; otherwise the
   first CNAME record of the zone decides, and without one the first record is to blame.
   */
  lemma ProxiedExactly(r: Response, expected: string, lookup: Lookup) returns (i: nat)
    requires r.status != 3 && Cnames(r) == [] && Decisive(Some(r))
    ensures i < |r.answers| && IsFirst(r.answers, IsAddress, i)
    ensures !lookup.Finds? ==>
              Judge(r, expected, lookup) == Verified(Clean(r.answers[i].data), r.answers[i].ttl, true)
    ensures lookup.Finds? ==>
              forall k :: IsFirst(lookup.records, IsCnameRecord, k) ==>
                            var name := Clean(lookup.records[k].content);
                            Judge(r, expected, lookup) ==
                            if EndsWith(name, expected) then Verified(name, r.answers[i].ttl, true)
                            else WrongTarget(expected, Record(lookup.records[k].kind, name))
    ensures lookup.Finds? && (forall k :: 0 <= k < |lookup.records| ==> !IsCnameRecord(lookup.records[k])) ==>
              Judge(r, expected, lookup) ==
              WrongTarget(expected,
                          if lookup.records == [] then NothingInZone
                          else Record(lookup.records[0].kind, Clean(lookup.records[0].content)))
  {
    i := FirstFiltered(r.answers, IsAddress);
    hide Clean, EndsWith, IsCname, IsAddress;
    if lookup.Finds? {
      FindFinds(lookup.records, IsCnameRecord);
      hide IsCnameRecord;
      forall k: int | IsFirst(lookup.records, IsCnameRecord, k)
        ensures Find(lookup.records, IsCnameRecord) == Some(lookup.records[k])
      {
        FindIsFirst(lookup.records, IsCnameRecord, k);
      }
    }
  }

  /** The three kinds of answer, by their numbers, and the denial. */
  lemma KindsExactly(r: Response, a: Answer, z: ZoneRecord, expected: string, lookup: Lookup)
    ensures IsCname(a) <==> a.kind == 5
    ensures IsAddress(a) <==> a.kind == 1 || a.kind == 28
    ensures IsCnameRecord(z) <==> Lower(z.kind) == "cname"
    ensures Decisive(Some(r)) ==> (Judge(r, expected, lookup) == NxDomain <==> r.status == 3)
  {
    hide Cnames, Addresses, Find;
  }

  /** The host name can be seen to point at the expected target. */
  ghost predicate PointsThere(r: Response, expected: string, lookup: Lookup) {
    if Cnames(r) != [] then
      exists a :: a in r.answers && IsCname(a) && EndsWith(Clean(a.data), expected)
    else
      lookup.Finds? && exists i ::
        IsFirst(lookup.records, IsCnameRecord, i) && EndsWith(Clean(lookup.records[i].content), expected)
  }

  /** It resolves to edge addresses and nobody can say what is behind them. */
  predicate Unchecked(r: Response, lookup: Lookup) {
    Cnames(r) == [] && !lookup.Finds?
  }

  /** A name is verified exactly when it points there, or when its target cannot be checked. */
  lemma VerifiedExactly(r: Response, expected: string, lookup: Lookup)
    requires Decisive(Some(r)) && r.status != NXDOMAIN_RCODE
    ensures Judge(r, expected, lookup).Verified? <==>
              PointsThere(r, expected, lookup) || Unchecked(r, lookup)
    ensures Judge(r, expected, lookup).Verified? || Judge(r, expected, lookup).WrongTarget?
  {
    FilterKeeps(r.answers, IsCname);
    if Cnames(r) != [] {
      var matches := (a: Answer) => EndsWith(Clean(a.data), expected);
      FindFinds(Cnames(r), matches);
    } else if lookup.Finds? {
      FindFinds(lookup.records, IsCnameRecord);
      if i :| IsFirst(lookup.records, IsCnameRecord, i)
              && EndsWith(Clean(lookup.records[i].content), expected) {
        FindIsFirst(lookup.records, IsCnameRecord, i);
      }
    }
  }

  /** The name reported as verified ends with what was expected, unless it could not be checked. */
  lemma VerifiedNameMatches(r: Response, expected: string, lookup: Lookup)
    requires Decisive(Some(r)) && Judge(r, expected, lookup).Verified? && !Unchecked(r, lookup)
    ensures EndsWith(Judge(r, expected, lookup).cname, expected)
    ensures Judge(r, expected, lookup).proxied <==> Cnames(r) == []
  {
    if Cnames(r) != [] {
      FindFinds(Cnames(r), (a: Answer) => EndsWith(Clean(a.data), expected));
    }
  }
}
