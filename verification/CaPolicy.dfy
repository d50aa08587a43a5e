/** The policy check of the CA command: which fields a request must have, and how the
    subject of the certificate is built from them. */
module CaPolicy {

  /** A name entry: attribute type, string type and contents. */
  datatype Entry = Entry(obj: nat, strType: nat, data: string)

  /** A policy line; `obj` is the attribute type its name stands for, if it is known. */
  datatype Rule = Rule(obj: int, value: string) {
    /** OBJ_txt2nid found the name. */
    predicate Known() {
      obj > 0
    }
  }

  datatype Kind = Optional | Supplied | Match | Unknown

  function KindOf(value: string): Kind {
    if value == "optional" then Optional
    else if value == "supplied" then Supplied
    else if value == "match" then Match
    else Unknown
  }

  lemma KindMeans(value: string)
    ensures KindOf(value) == Optional <==> value == "optional"
    ensures KindOf(value) == Supplied <==> value == "supplied"
    ensures KindOf(value) == Match <==> value == "match"
    ensures KindOf(value) == Unknown <==> value !in {"optional", "supplied", "match"}
  {
    assert "optional" != "supplied" && "optional" != "match" && "supplied" != "match" by {
      assert |"optional"| == 8 && |"match"| == 5 && "optional"[0] == 'o' && "supplied"[0] == 's';
    }
  }

  datatype Outcome = Built(subject: seq<Entry>) | Refused

  /** The entries of one type, in order. */
  function OfType(name: seq<Entry>, obj: int): seq<Entry> {
    if name == [] then []
    else
      var (rest, e) := (name[..|name| - 1], name[|name| - 1]);
      OfType(rest, obj) + if e.obj == obj then [e] else []
  }

  /** The entries of the request, grouped in the order of the policy. */
  function Regroup(policy: seq<Rule>, name: seq<Entry>): seq<Entry> {
    if policy == [] then []
    else Regroup(policy[..|policy| - 1], name) + OfType(name, policy[|policy| - 1].obj)
  }

  predicate Occurs(name: seq<Entry>, obj: int) {
    exists i :: 0 <= i < |name| && name[i].obj == obj
  }

  /** What a policy line asks of a request. */
  predicate Satisfied(rule: Rule, name: seq<Entry>, ca: seq<Entry>) {
    && rule.Known()
    && match KindOf(rule.value)
       case Optional => true
       case Supplied => Occurs(name, rule.obj)
       case Match => Occurs(name, rule.obj) && Matches(name, ca, rule.obj)
       case Unknown => false
  }

  /** Every entry of the type is also an entry of the CA name. */
  predicate Matches(name: seq<Entry>, ca: seq<Entry>, obj: int) {
    forall i :: 0 <= i < |name| && name[i].obj == obj ==> name[i] in ca
  }

  lemma OfTypeNone(name: seq<Entry>, from: nat, to: nat, obj: int)
    requires from <= to <= |name|
    requires forall i :: from <= i < to ==> name[i].obj != obj
    ensures OfType(name[..to], obj) == OfType(name[..from], obj)
  {
    if from < to {
      OfTypeNone(name, from, to - 1, obj);
      assert name[..to][..to - 1] == name[..to - 1];
    }
  }

  lemma OfTypeNext(name: seq<Entry>, from: nat, j: nat, obj: int)
    requires from <= j < |name| && name[j].obj == obj
    requires forall i :: from <= i < j ==> name[i].obj != obj
    ensures OfType(name[..j + 1], obj) == OfType(name[..from], obj) + [name[j]]
  {
    OfTypeNone(name, from, j, obj);
    assert name[..j + 1][..j] == name[..j];
  }

  /** X509_NAME_get_index_by_OBJ: the next entry of the type after `lastpos`. */
  method NextIndex(name: seq<Entry>, obj: int, lastpos: int) returns (j: int)
    requires -1 <= lastpos < |name|
    ensures j == -1 || lastpos < j < |name|
    ensures j >= 0 ==> name[j].obj == obj && forall i :: lastpos < i < j ==> name[i].obj != obj
    ensures j == -1 ==> forall i :: lastpos < i < |name| ==> name[i].obj != obj
  {
    var n := lastpos + 1;
    while n < |name|
      invariant lastpos < n <= |name|
      invariant forall i :: lastpos < i < n ==> name[i].obj != obj
    {
      if name[n].obj == obj {
        return n;
      }
      n := n + 1;
    }
    return -1;
  }

  /** The `again2` loop: look through the CA entries of the type for an equal value. */
  method FindEqual(ca: seq<Entry>, e: Entry) returns (j: int)
    ensures -1 <= j < |ca|
    ensures j >= 0 ==> ca[j] == e
    ensures j == -1 ==> e !in ca
  {
    var last2 := -1;
    while true
      invariant -1 <= last2 < |ca|
      invariant forall i :: 0 <= i <= last2 ==> ca[i] != e
      decreases |ca| - last2
    {
      j := NextIndex(ca, e.obj, last2);
      if j < 0 {
        assert forall i :: 0 <= i < |ca| ==> ca[i] != e;
        return;
      }
      last2 := j;
      if ca[j].strType == e.strType && ca[j].data == e.data {
        return;
      }
    }
  }

  /** The inner loop of do_body: one policy line. */
  method ApplyRule(rule: Rule, name: seq<Entry>, ca: seq<Entry>, built: seq<Entry>) returns (r: Outcome)
    requires rule.Known()
    ensures r.Built? <==> Satisfied(rule, name, ca)
    ensures r.Built? ==> r.subject == built + OfType(name, rule.obj)
  {
    hide KindOf;
    var kind := KindOf(rule.value);
    var subject := built;
    var last := -1;
    while true
      invariant -1 <= last < |name|
      invariant subject == built + OfType(name[..last + 1], rule.obj)
      invariant last >= 0 ==> name[last].obj == rule.obj
      invariant last >= 0 ==> kind != Unknown
      invariant kind == Match ==>
        forall i :: 0 <= i <= last && name[i].obj == rule.obj ==> name[i] in ca
      decreases |name| - last
    {
      var j := NextIndex(name, rule.obj, last);
      if j < 0 {
        OfTypeNone(name, last + 1, |name|, rule.obj);
        assert name[..|name|] == name;
        if last != -1 || kind == Optional {
          return Built(subject);
        }
        return Refused;
      }
      OfTypeNext(name, last + 1, j, rule.obj);
      last := j;
      if kind == Optional || kind == Supplied {
        subject := subject + [name[j]];
      } else if kind == Match {
        var c := FindEqual(ca, name[j]);
        if c < 0 {
          return Refused;
        }
        subject := subject + [ca[c]];
      } else {
        return Refused;
      }
    }
  }

  /** What a policy line asks, in the words of the configuration. */
  lemma SatisfiedIs(rule: Rule, name: seq<Entry>, ca: seq<Entry>)
    ensures Satisfied(rule, name, ca) <==>
      && rule.obj > 0 && rule.value in {"optional", "supplied", "match"}
      && (rule.value in {"supplied", "match"} ==> exists j :: 0 <= j < |name| && name[j].obj == rule.obj)
      && (rule.value == "match" ==>
           forall j :: 0 <= j < |name| && name[j].obj == rule.obj ==> name[j] in ca)
  {
    hide KindOf;
    KindMeans(rule.value);
  }

  lemma SatisfiedMeans(policy: seq<Rule>, name: seq<Entry>, ca: seq<Entry>)
    ensures (forall i :: 0 <= i < |policy| ==> Satisfied(policy[i], name, ca)) <==>
      forall i :: 0 <= i < |policy| ==>
        && policy[i].obj > 0 && policy[i].value in {"optional", "supplied", "match"}
        && (policy[i].value in {"supplied", "match"} ==>
             exists j :: 0 <= j < |name| && name[j].obj == policy[i].obj)
        && (policy[i].value == "match" ==>
             forall j :: 0 <= j < |name| && name[j].obj == policy[i].obj ==> name[j] in ca)
  {
    hide Satisfied;
    forall i | 0 <= i < |policy| {
      SatisfiedIs(policy[i], name, ca);
    }
  }

  /** The policy loop of do_body.  It builds a subject exactly when the type of every
      line is known, its value is one of the three words, every type marked "supplied" or
      "match" occurs in the request, and every entry of a type marked "match" is an entry
      of the CA name.  The subject is the request regrouped in policy order. */
  method MatchPolicy(policy: seq<Rule>, name: seq<Entry>, ca: seq<Entry>) returns (r: Outcome)
    ensures r.Built? <==>
      forall i :: 0 <= i < |policy| ==>
        && policy[i].obj > 0 && policy[i].value in {"optional", "supplied", "match"}
        && (policy[i].value in {"supplied", "match"} ==>
             exists j :: 0 <= j < |name| && name[j].obj == policy[i].obj)
        && (policy[i].value == "match" ==>
             forall j :: 0 <= j < |name| && name[j].obj == policy[i].obj ==> name[j] in ca)
    ensures r.Built? ==> r.subject == Regroup(policy, name)
  {
    hide Satisfied;
    SatisfiedMeans(policy, name, ca);
    var subject: seq<Entry> := [];
    for i := 0 to |policy|
      invariant subject == Regroup(policy[..i], name)
      invariant forall k :: 0 <= k < i ==> Satisfied(policy[k], name, ca)
    {
      if !policy[i].Known() {
        SatisfiedIs(policy[i], name, ca);
        return Refused;
      }
      var step := ApplyRule(policy[i], name, ca, subject);
      if step.Refused? {
        return Refused;
      }
      assert policy[..i + 1][..i] == policy[..i];
      subject := step.subject;
    }
    assert policy[..|policy|] == policy;
    return Built(subject);
  }

  // ----- regrouping loses and invents nothing -----

  /** The entries of one type: all of them, in the order of the request. */
  lemma {:induction false} OfTypeConcat(a: seq<Entry>, b: seq<Entry>, obj: int)
    ensures OfType(a + b, obj) == OfType(a, obj) + OfType(b, obj)
    ensures |b| == 1 ==> OfType(b, obj) == if b[0].obj == obj then b else []
  {
    if b != [] {
      var n := |b| - 1;
      OfTypeConcat(a, b[..n], obj);
      assert (a + b)[..|a + b| - 1] == a + b[..n];
    } else {
      assert a + b == a;
    }
  }

  /** The groups follow each other in the order of the policy. */
  lemma {:induction false} RegroupConcat(p: seq<Rule>, q: seq<Rule>, name: seq<Entry>)
    ensures Regroup(p + q, name) == Regroup(p, name) + Regroup(q, name)
    ensures |q| == 1 ==> Regroup(q, name) == OfType(name, q[0].obj)
  {
    if q != [] {
      var n := |q| - 1;
      RegroupConcat(p, q[..n], name);
      assert (p + q)[..|p + q| - 1] == p + q[..n];
    } else {
      assert p + q == p;
    }
  }

  predicate Distinct(policy: seq<Rule>) {
    forall i, j :: 0 <= i < j < |policy| ==> policy[i].obj != policy[j].obj
  }

  predicate Lists(policy: seq<Rule>, obj: int) {
    exists i :: 0 <= i < |policy| && policy[i].obj == obj
  }

  lemma {:induction false} OfTypeCounts(name: seq<Entry>, obj: int, e: Entry)
    ensures multiset(OfType(name, obj))[e] == if e.obj == obj then multiset(name)[e] else 0
  {
    if name != [] {
      var (rest, x) := (name[..|name| - 1], name[|name| - 1]);
      OfTypeCounts(rest, obj, e);
      assert name == rest + [x];
    }
  }

  lemma ListsLast(policy: seq<Rule>, obj: int)
    requires policy != []
    ensures var (rest, rule) := (policy[..|policy| - 1], policy[|policy| - 1]);
      && (Lists(policy, obj) <==> Lists(rest, obj) || rule.obj == obj)
      && (Distinct(policy) ==> Distinct(rest) && !(Lists(rest, obj) && rule.obj == obj))
  {
    var rest := policy[..|policy| - 1];
    assert forall k :: 0 <= k < |rest| ==> rest[k] == policy[k];
    if k :| 0 <= k < |policy| && policy[k].obj == obj { assert k < |rest| ==> rest[k].obj == obj; }
    if k :| 0 <= k < |rest| && rest[k].obj == obj { assert policy[k].obj == obj; }
  }

  /** With no type listed twice, each entry of a listed type occurs in the subject as
      often as in the request, and no other entry occurs. */
  lemma {:induction false} RegroupCounts(policy: seq<Rule>, name: seq<Entry>, e: Entry)
    requires Distinct(policy)
    ensures multiset(Regroup(policy, name))[e] == if Lists(policy, e.obj) then multiset(name)[e] else 0
  {
    hide Distinct, OfType;
    if policy != [] {
      var (rest, rule) := (policy[..|policy| - 1], policy[|policy| - 1]);
      ListsLast(policy, e.obj);
      RegroupCounts(rest, name, e);
      OfTypeCounts(name, rule.obj, e);
    }
  }

  /** If the policy lists every type of the request once, the subject is a permutation
      of the request. */
  lemma RegroupPermutes(policy: seq<Rule>, name: seq<Entry>)
    requires Distinct(policy)
    requires forall i :: 0 <= i < |name| ==> Lists(policy, name[i].obj)
    ensures multiset(Regroup(policy, name)) == multiset(name)
  {
    forall e: Entry
      ensures multiset(Regroup(policy, name))[e] == multiset(name)[e]
    {
      RegroupCounts(policy, name, e);
      if e in name { assert exists i :: 0 <= i < |name| && name[i] == e; }
    }
  }
}
