/** Why a create-index request is refused: each refusal, and exactly when it is given. */
module IndexRefusals {
  import opened Wrappers
  import opened Core
  import opened JsonString
  import opened JsonGrammar
  import opened IndexRoutes

  /** The key of the member spells `name`. */
  predicate Named(m: Member, name: string) {
    Unescape(Inner(m.key)) == Some(name)
  }

  predicate NamedBefore(ms: seq<Member>, k: nat, name: string)
    requires k <= |ms|
  {
    exists j | 0 <= j < k :: Named(ms[j], name)
  }

  /** What is wrong with member `k`, given the names before it. */
  function MemberFault(ms: seq<Member>, k: nat): Option<Refusal>
    requires k < |ms|
  {
    var m := ms[k];
    match Unescape(Inner(m.key))
    case None => Some(NotJson)
    case Some(name) =>
      if name == "uid" && NamedBefore(ms, k, "uid") then Some(AppearsTwice("uid"))
      else if name == "uid" then (if MeaningOf(m.value).Str? then None else Some(UidNotAString))
      else if name == "primaryKey" && NamedBefore(ms, k, "primaryKey") then Some(AppearsTwice("primaryKey"))
      else if name == "primaryKey" then
        (if MeaningOf(m.value).Other? then Some(PrimaryKeyNotAStringOrNull) else None)
      else Some(UnknownField(name))
  }

  /** Member `k` is the first with a fault, and its fault is `e`. */
  predicate FirstFault(ms: seq<Member>, k: nat, e: Refusal) {
    && k < |ms| && MemberFault(ms, k) == Some(e)
    && forall j | 0 <= j < k :: MemberFault(ms, j).None?
  }

  predicate NoFault(ms: seq<Member>) {
    forall k | 0 <= k < |ms| :: MemberFault(ms, k).None?
  }

  /** The fields say what the members before `k` were, none of which has a fault. */
  ghost predicate ReadSoFar(ms: seq<Member>, k: nat, f: Fields) {
    && k <= |ms|
    && (f.uid.Some? <==> NamedBefore(ms, k, "uid"))
    && (f.hasPrimaryKey <==> NamedBefore(ms, k, "primaryKey"))
    && (forall j | 0 <= j < k :: MemberFault(ms, j).None?)
    && (forall j | 0 <= j < k && Named(ms[j], "uid") :: f.uid.Some? && MeaningOf(ms[j].value) == Str(f.uid.value))
  }

  lemma {:induction false} NextMember(ms: seq<Member>, k: nat, f: Fields)
    requires ReadSoFar(ms, k, f) && k < |ms|
    ensures match ReadOne(ms[k].key, ms[k].value, f)
            case Err(e) => MemberFault(ms, k) == Some(e)
            case Ok(g) => MemberFault(ms, k).None? && ReadSoFar(ms, k + 1, g)
  {
    hide Unescape, Inner, MeaningOf;
    assert forall name :: NamedBefore(ms, k + 1, name) <==> NamedBefore(ms, k, name) || Named(ms[k], name);
  }

  /** Reading from member `k` on stops at the first fault, or reaches the end without one. */
  lemma {:induction false} ReadAllStops(ms: seq<Member>, k: nat, f: Fields)
    requires ReadSoFar(ms, k, f)
    ensures match ReadAll(ms[k..], f)
            case Err(e) => exists j: nat :: FirstFault(ms, j, e)
            case Ok(g) => NoFault(ms) && ReadSoFar(ms, |ms|, g)
    decreases |ms| - k
  {
    hide ReadOne, MemberFault, Named, NamedBefore, MeaningOf;
    if k < |ms| {
      NextMember(ms, k, f);
      assert ms[k..][0] == ms[k] && ms[k..][1..] == ms[k + 1..];
      match ReadOne(ms[k].key, ms[k].value, f)
      case Err(e) =>
        assert FirstFault(ms, k, e);
        assert ReadAll(ms[k..], f) == Err(e);
      case Ok(g) =>
        ReadAllStops(ms, k + 1, g);
        assert ReadAll(ms[k..], f) == ReadAll(ms[k + 1..], g);
    }
  }

  lemma {:induction false} NothingRead(ms: seq<Member>)
    ensures ReadSoFar(ms, 0, NO_FIELDS)
  {
  }

  lemma {:induction false} OneFirstFault(ms: seq<Member>, j: nat, k: nat, d: Refusal, e: Refusal)
    requires FirstFault(ms, j, d) && FirstFault(ms, k, e)
    ensures d == e
  {
    hide MemberFault;
  }

  lemma {:induction false} MemberFaults(ms: seq<Member>, k: nat)
    requires k < |ms|
    ensures MemberFault(ms, k) !in {Some(NotAnObject), Some(UidMissing), Some(InvalidUid)}
  {
    hide Unescape, Inner, MeaningOf;
  }

  /** Some member is named uid, and what it says is not a uid. */
  predicate HasBadUid(ms: seq<Member>) {
    exists k | 0 <= k < |ms| ::
      Named(ms[k], "uid") && MeaningOf(ms[k].value).Str? && !IsUidText(MeaningOf(ms[k].value).text)
  }

  /** Each refusal of an object, and exactly when it is given. */
  lemma {:induction false} ObjectRefusals(ms: seq<Member>, e: Refusal)
    ensures CommandOf(Object(ms)) == Err(e) <==>
            match e
            case NotAnObject => false
            case UidMissing => NoFault(ms) && !NamedBefore(ms, |ms|, "uid")
            case InvalidUid => NoFault(ms) && HasBadUid(ms)
            case _ => exists k: nat :: FirstFault(ms, k, e)
  {
    NothingRead(ms);
    ReadAllStops(ms, 0, NO_FIELDS);
    assert ms[0..] == ms;
    FaultKinds(ms);
    match ReadAll(ms, NO_FIELDS)
    case Err(d) =>
      hide ReadAll, MemberFault, IsUidText, IsUid, MeaningOf, Named, NamedBefore, HasBadUid, ReadSoFar;
      var j: nat :| FirstFault(ms, j, d);
      forall k: nat | FirstFault(ms, k, e) ensures d == e {
        OneFirstFault(ms, j, k, d, e);
      }
    case Ok(f) =>
      hide ReadAll, MemberFault, IsUidText, IsUid, ReadSoFar, HasBadUid;
      UidOutcome(ms, f);
      assert forall k: nat :: !FirstFault(ms, k, e);
  }

  lemma {:induction false} FaultKinds(ms: seq<Member>)
    ensures forall k: nat ::
              !FirstFault(ms, k, NotAnObject) && !FirstFault(ms, k, UidMissing) && !FirstFault(ms, k, InvalidUid)
  {
    hide MemberFault;
    forall k: nat
      ensures !FirstFault(ms, k, NotAnObject) && !FirstFault(ms, k, UidMissing) && !FirstFault(ms, k, InvalidUid)
    {
      if k < |ms| { MemberFaults(ms, k); }
    }
  }

  lemma {:induction false} UidOutcome(ms: seq<Member>, f: Fields)
    requires ReadSoFar(ms, |ms|, f)
    ensures ToCommand(f) == Err(UidMissing) <==> !NamedBefore(ms, |ms|, "uid")
    ensures ToCommand(f) == Err(InvalidUid) <==> HasBadUid(ms)
    ensures ToCommand(f).Ok? || ToCommand(f).error == UidMissing || ToCommand(f).error == InvalidUid
  {
    hide MemberFault, MeaningOf, Named, IsUid, IsUidText;
    if f.uid.Some? {
      UidIsListed(f.uid.value);
      var j :| 0 <= j < |ms| && Named(ms[j], "uid");
    }
  }

  /** On a body that parses, every refusal is given exactly when it applies: the first offending member
      decides, and the uid is asked for only after all members read. */
  lemma {:induction false} RefusedExactly(body: string, e: Refusal)
    requires ParseText(body).Some?
    ensures var v := ParseText(body).value.1;
            Request(body) == Err(e) <==>
            if !v.Object? then e == NotAnObject
            else
              match e
              case NotAnObject => false
              case UidMissing => NoFault(v.members) && !NamedBefore(v.members, |v.members|, "uid")
              case InvalidUid => NoFault(v.members) && HasBadUid(v.members)
              case _ => exists k: nat :: FirstFault(v.members, k, e)
  {
    var v := ParseText(body).value.1;
    hide ParseText, ReadAll, ToCommand, FirstFault, NoFault, HasBadUid, NamedBefore;
    if v.Object? {
      ObjectRefusals(v.members, e);
      assert v == Object(v.members);
    }
  }
}
