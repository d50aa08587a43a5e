/** The revocation field of the certificate database: "time[,reason[,argument]]",
    written by make_revocation_str and read back by unpack_revinfo. */
module Revocation {
  import opened Options

  datatype RevType = RevNone | RevValid | RevCrlReason | RevHold | RevKeyCompromise | RevCaCompromise

  /** The checks done by the ASN.1 library: object identifiers, generalized times, UTC times. */
  datatype Syntax = Syntax(oid: string -> bool, generalizedTime: string -> bool, utcTime: string -> bool)

  /** The first eight are CRL reasons, the others carry an argument. */
  const REASONS: seq<string> := [
    "unspecified", "keyCompromise", "CACompromise", "affiliationChanged", "superseded",
    "cessationOfOperation", "certificateHold", "removeFromCRL",
    "holdInstruction", "keyTime", "CAkeyTime"
  ]

  const NO_STATUS: int := -1

  datatype RevInfo = RevInfo(time: string, reason: int, hold: Option<string>, compromised: Option<string>)

  function Fold(c: char): char {
    if 'A' <= c <= 'Z' then c + ' ' else c
  }

  /** OPENSSL_strcasecmp(a, b) == 0. */
  predicate SameFold(a: string, b: string) {
    |a| == |b| && forall i :: 0 <= i < |a| ==> Fold(a[i]) == Fold(b[i])
  }

  /** The first of the first `n` reasons that is spelled like `s`, or -1. */
  function ReasonIndex(s: string, n: nat): (r: int)
    requires n <= |REASONS|
    ensures -1 <= r < n
    ensures r >= 0 ==> SameFold(s, REASONS[r])
    ensures forall i :: 0 <= i < (if r < 0 then n else r) ==> !SameFold(s, REASONS[i])
  {
    if n == 0 then -1
    else
      var r := ReasonIndex(s, n - 1);
      if r >= 0 then r else if SameFold(s, REASONS[n - 1]) then n - 1 else -1
  }

  /** Reason and argument of a revocation, or nothing if the argument is not valid. */
  function Fields(t: RevType, arg: string, syn: Syntax): Option<(Option<string>, Option<string>)> {
    match t
    case RevNone => Some((None, None))
    case RevValid => Some((None, None))
    case RevCrlReason =>
      var i := ReasonIndex(arg, 8);
      if i < 0 then None else Some((Some(REASONS[i]), None))
    case RevHold =>
      if syn.oid(arg) then Some((Some("holdInstruction"), Some(arg))) else None
    case RevKeyCompromise =>
      if syn.generalizedTime(arg) then Some((Some("keyTime"), Some(arg))) else None
    case RevCaCompromise =>
      if syn.generalizedTime(arg) then Some((Some("CAkeyTime"), Some(arg))) else None
  }

  function Joined(now: string, reason: Option<string>, other: Option<string>): string {
    now + (if reason.Some? then "," + reason.value else "") + (if other.Some? then "," + other.value else "")
  }

  /** The position of the first comma from `i` on, or the length. */
  function CommaFrom(s: string, i: nat): (j: nat)
    requires i <= |s|
    ensures i <= j <= |s| && (j < |s| ==> s[j] == ',') && ',' !in s[i..j]
    decreases |s| - i
  {
    if i == |s| || s[i] == ',' then i else CommaFrom(s, i + 1)
  }

  /** The three parts of the field. */
  function Split(s: string): (string, Option<string>, Option<string>) {
    var i := CommaFrom(s, 0);
    if i == |s| then (s, None, None)
    else
      var j := CommaFrom(s, i + 1);
      if j == |s| then (s[..i], Some(s[i + 1..]), None)
      else (s[..i], Some(s[i + 1..j]), Some(s[j + 1..]))
  }

  /** What the parts mean; the codes are those of section 5.3.1 of RFC 5280. */
  function Interpret(time: string, reason: Option<string>, arg: Option<string>, syn: Syntax): Option<RevInfo> {
    if !syn.utcTime(time) then None
    else if reason.None? then Some(RevInfo(time, NO_STATUS, None, None))
    else
      var i := ReasonIndex(reason.value, |REASONS|);
      if i < 0 then None
      else if i == 7 then Some(RevInfo(time, 8, None, None))
      else if i == 8 then
        if arg.Some? && syn.oid(arg.value) then Some(RevInfo(time, 6, arg, None)) else None
      else if i == 9 || i == 10 then
        if arg.Some? && syn.generalizedTime(arg.value) then Some(RevInfo(time, if i == 9 then 1 else 2, None, arg))
        else None
      else Some(RevInfo(time, i, None, None))
  }

  function Unpack(s: string, syn: Syntax): Option<RevInfo> {
    var (time, reason, arg) := Split(s);
    Interpret(time, reason, arg, syn)
  }

  // ----- the code -----

  /** OPENSSL_strlcpy into a buffer of `size` bytes. */
  function Strlcpy(src: string, size: nat): string
    requires size > 0
  {
    if |src| < size then src else src[..size - 1]
  }

  /** OPENSSL_strlcat. */
  function Strlcat(dst: string, src: string, size: nat): string
    requires |dst| < size
  {
    dst + Strlcpy(src, size - |dst|)
  }

  /** The comparison loops of both functions. */
  method FindReason(s: string, n: nat) returns (r: int)
    requires n <= |REASONS|
    ensures r == ReasonIndex(s, n)
  {
    var i := 0;
    while i < n
      invariant i <= n
      invariant forall k :: 0 <= k < i ==> !SameFold(s, REASONS[k])
    {
      if SameFold(s, REASONS[i]) {
        return i;
      }
      i := i + 1;
    }
    return -1;
  }

  /** The second half of make_revocation_str: size a buffer, then fill it.  The size
      is exact: nothing is cut off. */
  method JoinInBuffer(now: string, reason: Option<string>, other: Option<string>) returns (str: string)
    ensures str == Joined(now, reason, other)
  {
    var size := |now| + 1;
    if reason.Some? {
      size := size + |reason.value| + 1;
    }
    if other.Some? {
      size := size + |other.value| + 1;
    }
    str := Strlcpy(now, size);
    if reason.Some? {
      str := Strlcat(str, ",", size);
      str := Strlcat(str, reason.value, size);
      assert str == now + ("," + reason.value);
    }
    if other.Some? {
      ghost var before := str;
      str := Strlcat(str, ",", size);
      str := Strlcat(str, other.value, size);
      assert str == before + ("," + other.value);
    }
  }

  /** make_revocation_str, with the current time as a parameter. */
  method MakeRevocationStr(t: RevType, arg: string, now: string, syn: Syntax) returns (r: Option<string>)
    ensures r.None? <==> Fields(t, arg, syn).None?
    ensures r.Some? ==>
      var (reason, other) := Fields(t, arg, syn).value; r.value == Joined(now, reason, other)
  {
    var reason: Option<string>, other: Option<string> := None, None;
    match t {
      case RevNone =>
      case RevValid =>
      case RevCrlReason =>
        var i := FindReason(arg, 8);
        if i < 0 {
          return None;
        }
        reason := Some(REASONS[i]);
      case RevHold =>
        if !syn.oid(arg) {
          return None;
        }
        reason, other := Some("holdInstruction"), Some(arg);
      case RevKeyCompromise =>
        if !syn.generalizedTime(arg) {
          return None;
        }
        reason, other := Some("keyTime"), Some(arg);
      case RevCaCompromise =>
        if !syn.generalizedTime(arg) {
          return None;
        }
        reason, other := Some("CAkeyTime"), Some(arg);
    }
    var str := JoinInBuffer(now, reason, other);
    return Some(str);
  }

  /** strchr(s + i, ','). */
  method FindComma(s: string, i: nat) returns (j: nat)
    requires i <= |s|
    ensures j == CommaFrom(s, i)
  {
    j := i;
    while j < |s| && s[j] != ','
      invariant i <= j <= |s| && CommaFrom(s, i) == CommaFrom(s, j)
    {
      j := j + 1;
    }
  }

  /** unpack_revinfo. */
  method UnpackRevinfo(s: string, syn: Syntax) returns (r: Option<RevInfo>)
    ensures r == Unpack(s, syn)
  {
    var p := FindComma(s, 0);
    var time, reasonStr: Option<string>, argStr: Option<string> := s[..p], None, None;
    if p < |s| {
      var q := FindComma(s, p + 1);
      reasonStr := Some(s[p + 1..q]);
      if q < |s| {
        argStr := Some(s[q + 1..]);
      }
    }
    assert p == |s| ==> s[..p] == s;
    assert reasonStr.Some? && argStr.None? ==> reasonStr.value == s[p + 1..];
    assert (time, reasonStr, argStr) == Split(s);
    if !syn.utcTime(time) {
      return None;
    }
    var hold: Option<string>, compTime: Option<string> := None, None;
    var reasonCode := NO_STATUS;
    if reasonStr.Some? {
      reasonCode := FindReason(reasonStr.value, |REASONS|);
      if reasonCode == NO_STATUS {
        return None;
      }
      if reasonCode == 7 {
        reasonCode := 8;
      } else if reasonCode == 8 {
        if argStr.None? || !syn.oid(argStr.value) {
          return None;
        }
        reasonCode, hold := 6, argStr;
      } else if reasonCode == 9 || reasonCode == 10 {
        if argStr.None? || !syn.generalizedTime(argStr.value) {
          return None;
        }
        compTime := argStr;
        reasonCode := if reasonCode == 9 then 1 else 2;
      }
    }
    return Some(RevInfo(time, reasonCode, hold, compTime));
  }

  /** OPENSSL_strcasecmp on one character: equal, or the two cases of one letter. */
  lemma FoldsCase(a: char, b: char)
    ensures SameFold([a], [b]) <==>
      a == b || ('a' <= a <= 'z' && b as int == a as int - 32) || ('A' <= a <= 'Z' && b as int == a as int + 32)
  {
    assert SameFold([a], [b]) <==> Fold([a][0]) == Fold([b][0]);
  }

  lemma AroundComma(s: string, i: nat)
    requires i < |s| && s[i] == ','
    ensures s == s[..i] + "," + s[i + 1..]
  {
  }

  /** The format: time, reason and argument with commas between them. */
  lemma JoinedIs(now: string, reason: string, other: string)
    ensures Joined(now, None, None) == now
    ensures Joined(now, Some(reason), None) == now + "," + reason
    ensures Joined(now, Some(reason), Some(other)) == now + "," + reason + "," + other
    ensures now + "," + reason + "," + other == now + "," + (reason + "," + other)
  {
  }

  /** The three parts make up the field again, and the first two contain no comma. */
  lemma JoinedSplit(s: string)
    ensures var (time, reason, arg) := Split(s);
      && Joined(time, reason, arg) == s && ',' !in time && (reason.Some? ==> ',' !in reason.value)
      && (arg.Some? ==> reason.Some?)
  {
    hide CommaFrom, Joined;
    var i := CommaFrom(s, 0);
    assert s[0..i] == s[..i];
    if i == |s| {
      JoinedIs(s, "", "");
    } else {
      var (time, rest) := (s[..i], s[i + 1..]);
      var j := CommaFrom(s, i + 1);
      AroundComma(s, i);
      assert rest[..j - i - 1] == s[i + 1..j];
      if j == |s| {
        JoinedIs(time, rest, "");
        assert s[i + 1..j] == rest;
      } else {
        AroundComma(rest, j - i - 1);
        assert rest[j - i..] == s[j + 1..];
        assert rest == s[i + 1..j] + "," + s[j + 1..];
        JoinedIs(time, s[i + 1..j], s[j + 1..]);
      }
    }
  }

  /** What is written for each type of revocation, and when. */
  lemma WrittenAs(t: RevType, arg: string, syn: Syntax)
    ensures var f := Fields(t, arg, syn);
      && (t == RevNone || t == RevValid ==> f == Some((None, None)))
      && (t == RevHold ==> f == if syn.oid(arg) then Some((Some("holdInstruction"), Some(arg))) else None)
      && (t == RevKeyCompromise ==>
           f == if syn.generalizedTime(arg) then Some((Some("keyTime"), Some(arg))) else None)
      && (t == RevCaCompromise ==>
           f == if syn.generalizedTime(arg) then Some((Some("CAkeyTime"), Some(arg))) else None)
  {
  }

  /** A CRL reason is written as its name is spelled in the list, whatever the case of the
      argument; any other argument is refused. */
  lemma ReasonWritten(arg: string, syn: Syntax)
    ensures var f := Fields(RevCrlReason, arg, syn);
      && (f.None? <==> forall i :: 0 <= i < 8 ==> !SameFold(arg, REASONS[i]))
      && (f.Some? ==> exists i :: 0 <= i < 8 && SameFold(arg, REASONS[i]) && f.value == (Some(REASONS[i]), None))
  {
    hide SameFold;
    var i := ReasonIndex(arg, 8);
  }

  /** The code section 5.3.1 of RFC 5280 gives to a name. */
  function Rfc5280(name: string): int {
    match name
    case "unspecified" => 0
    case "keyCompromise" => 1
    case "CACompromise" => 2
    case "affiliationChanged" => 3
    case "superseded" => 4
    case "cessationOfOperation" => 5
    case "certificateHold" => 6
    case "removeFromCRL" => 8
    case "holdInstruction" => 6
    case "keyTime" => 1
    case "CAkeyTime" => 2
    case _ => -1
  }

  lemma ReasonCodes(i: nat)
    requires i < |REASONS|
    ensures Rfc5280(REASONS[i]) == [0, 1, 2, 3, 4, 5, 6, 8, 6, 1, 2][i]
    ensures i < 8 <==> REASONS[i] !in {"holdInstruction", "keyTime", "CAkeyTime"}
  {
  }

  /** The name is that of reason `i`, and the argument that reason needs is there. */
  predicate Backed(name: string, arg: Option<string>, i: nat, syn: Syntax)
    requires i < |REASONS|
  {
    && SameFold(name, REASONS[i])
    && (REASONS[i] == "holdInstruction" ==> arg.Some? && syn.oid(arg.value))
    && (REASONS[i] in {"keyTime", "CAkeyTime"} ==> arg.Some? && syn.generalizedTime(arg.value))
  }

  /** When a field is read and what it then says: the time must be a UTC time; a reason
      must be one of the eleven names, in any case; the last three need an argument of
      their kind.  The code is that of the name. */
  lemma UnpackExact(time: string, reason: Option<string>, arg: Option<string>, syn: Syntax)
    ensures var r := Interpret(time, reason, arg, syn);
      && (reason.None? ==> r == if syn.utcTime(time) then Some(RevInfo(time, -1, None, None)) else None)
      && (reason.Some? && r.Some? ==>
           exists i :: 0 <= i < |REASONS| && SameFold(reason.value, REASONS[i])
             && r.value.time == time && r.value.reason == Rfc5280(REASONS[i])
             && (r.value.hold.Some? <==> REASONS[i] == "holdInstruction")
             && (r.value.compromised.Some? <==> REASONS[i] in {"keyTime", "CAkeyTime"})
             && (r.value.hold.Some? ==> r.value.hold == arg)
             && (r.value.compromised.Some? ==> r.value.compromised == arg))
      && (reason.Some? ==> (r.Some? <==>
           syn.utcTime(time) && exists i :: 0 <= i < |REASONS| && Backed(reason.value, arg, i, syn)))
  {
    hide SameFold, Rfc5280;
    var r := Interpret(time, reason, arg, syn);
    if reason.Some? {
      var k := ReasonIndex(reason.value, |REASONS|);
      if k >= 0 {
        ReasonCodes(k);
        assert SameFold(reason.value, REASONS[k]);
        if i :| 0 <= i < |REASONS| && Backed(reason.value, arg, i, syn) {
          OneReason(reason.value, i, k);
        }
        assert r.Some? ==> Backed(reason.value, arg, k, syn);
      }
    }
  }

  /** A name is spelled like one reason only. */
  lemma OneReason(s: string, i: nat, k: nat)
    requires i < |REASONS| && k < |REASONS| && SameFold(s, REASONS[i]) && SameFold(s, REASONS[k])
    ensures i == k
  {
    SameAlike(s, REASONS[i], REASONS[k]);
    ReasonsDistinct(i);
    ReasonsDistinct(k);
    SameAlike(s, REASONS[k], REASONS[i]);
  }

  lemma SameAlike(s: string, a: string, b: string)
    requires SameFold(s, a) && SameFold(s, b)
    ensures SameFold(a, b)
  {
  }

  // ----- the round trip -----

  /** The code section 5.3.1 of RFC 5280 gives to a revocation. */
  function ReasonCode(t: RevType, arg: string): int {
    match t
    case RevNone => NO_STATUS
    case RevValid => NO_STATUS
    case RevCrlReason => (var i := ReasonIndex(arg, 8); if i == 7 then 8 else i)
    case RevHold => 6
    case RevKeyCompromise => 1
    case RevCaCompromise => 2
  }

  lemma CommaAt(s: string, i: nat, j: nat)
    requires i <= j <= |s| && ',' !in s[i..j] && (j < |s| ==> s[j] == ',')
    ensures CommaFrom(s, i) == j
    decreases j - i
  {
    if i < j {
      assert s[i..j][0] == s[i];
      assert s[i..j][1..] == s[i + 1..j];
      CommaAt(s, i + 1, j);
    }
  }

  lemma SplitJoined(now: string, reason: Option<string>, other: Option<string>)
    requires ',' !in now && (reason.Some? ==> ',' !in reason.value) && (other.Some? ==> reason.Some?)
    ensures Split(Joined(now, reason, other)) == (now, reason, other)
  {
    var s := Joined(now, reason, other);
    assert s[0..|now|] == now;
    CommaAt(s, 0, |now|);
    if reason.None? {
      assert s == now;
    } else {
      var j := |now| + 1 + |reason.value|;
      assert s[|now|] == ',' && s[|now| + 1..j] == reason.value;
      if other.Some? {
        assert s[j] == ',' && s[j + 1..] == other.value;
      } else {
        assert s[|now| + 1..] == reason.value;
      }
      CommaAt(s, |now| + 1, j);
      assert s[..|now|] == now;
    }
  }

  /** No two reasons are spelled alike, and none contains a comma. */
  lemma ReasonsDistinct(i: nat)
    requires i < |REASONS|
    ensures ',' !in REASONS[i] && ReasonIndex(REASONS[i], |REASONS|) == i
  {
    forall j | 0 <= j < i
      ensures !SameFold(REASONS[i], REASONS[j])
    {
      assert |REASONS[i]| == |REASONS[j]| ==> Fold(REASONS[i][0]) != Fold(REASONS[j][0]);
    }
    assert SameFold(REASONS[i], REASONS[i]);
  }

  lemma NamedReason(t: RevType, arg: string, syn: Syntax)
    requires Fields(t, arg, syn).Some? && Fields(t, arg, syn).value.0.Some?
    ensures var reason := Fields(t, arg, syn).value.0.value;
      exists i :: 0 <= i < |REASONS| && REASONS[i] == reason && i ==
        match t
        case RevCrlReason => ReasonIndex(arg, 8)
        case RevHold => 8
        case RevKeyCompromise => 9
        case _ => 10
  {
    assert REASONS[8] == "holdInstruction" && REASONS[9] == "keyTime" && REASONS[10] == "CAkeyTime";
  }

  /** Whatever can be written is read back: the time, the reason code and the argument,
      for every type of revocation and every argument the writer accepts. */
  lemma RoundTrip(t: RevType, arg: string, now: string, syn: Syntax)
    requires Fields(t, arg, syn).Some? && ',' !in now && syn.utcTime(now)
    ensures var (reason, other) := Fields(t, arg, syn).value;
      Unpack(Joined(now, reason, other), syn) == Some(RevInfo(now, ReasonCode(t, arg),
        if t == RevHold then Some(arg) else None,
        if t == RevKeyCompromise || t == RevCaCompromise then Some(arg) else None))
  {
    hide Split, Joined, SameFold;
    var (reason, other) := Fields(t, arg, syn).value;
    if reason.Some? {
      NamedReason(t, arg, syn);
      var i :| 0 <= i < |REASONS| && REASONS[i] == reason.value && i ==
        match t
        case RevCrlReason => ReasonIndex(arg, 8)
        case RevHold => 8
        case RevKeyCompromise => 9
        case _ => 10;
      ReasonsDistinct(i);
    }
    SplitJoined(now, reason, other);
  }

  /** What is read back depends on the time being a UTC time: one that is not is
      rejected on reload. */
  lemma OtherTimesAreRejected(t: RevType, arg: string, now: string, syn: Syntax)
    requires Fields(t, arg, syn).Some? && ',' !in now
    ensures var (reason, other) := Fields(t, arg, syn).value;
      Unpack(Joined(now, reason, other), syn).Some? <==> syn.utcTime(now)
  {
    hide Split, Joined, SameFold;
    var (reason, other) := Fields(t, arg, syn).value;
    if syn.utcTime(now) {
      RoundTrip(t, arg, now, syn);
    } else {
      if reason.Some? {
        NamedReason(t, arg, syn);
        var i :| 0 <= i < |REASONS| && REASONS[i] == reason.value;
        ReasonsDistinct(i);
      }
      SplitJoined(now, reason, other);
    }
  }
}
