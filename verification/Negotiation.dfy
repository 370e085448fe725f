/** Negotiation of the operational parameters (internal/iscsi/params.go; RFC 7143, sections 6.2 and 13). */
module Negotiation {
  import opened Errors
  import opened Text

  datatype Params = Params(
    maxRecv: int, maxBurst: int, firstBurst: int, maxR2T: int, time2Wait: int, time2Retain: int, maxConnections: int,
    initialR2T: bool, immediateData: bool, pduInOrder: bool, sequenceInOrder: bool,
    headerDigest: string, dataDigest: string, initiatorName: string, targetName: string, sessionType: string)

  datatype Key =
    | InitiatorName | TargetName | SessionType
    | MaxRecv | MaxBurst | FirstBurst | MaxR2T | Time2Wait | Time2Retain | MaxConnections
    | InitialR2T | ImmediateData | PDUInOrder | SequenceInOrder
    | HeaderDigest | DataDigest
    | Ignored | Unknown

  /** The key that a name spells; names handled elsewhere are ignored here. */
  function KeyOf(name: string): Key {
    if name == "InitiatorName" then InitiatorName
    else if name == "TargetName" then TargetName
    else if name == "SessionType" then SessionType
    else if name == "InitiatorAlias" then Ignored
    else if name == "MaxRecvDataSegmentLength" then MaxRecv
    else if name == "MaxBurstLength" then MaxBurst
    else if name == "FirstBurstLength" then FirstBurst
    else if name == "MaxOutstandingR2T" then MaxR2T
    else if name == "DefaultTime2Wait" then Time2Wait
    else if name == "DefaultTime2Retain" then Time2Retain
    else if name == "MaxConnections" then MaxConnections
    else OtherKeyOf(name)
  }

  function OtherKeyOf(name: string): Key {
    if name == "InitialR2T" then InitialR2T
    else if name == "ImmediateData" then ImmediateData
    else if name == "DataPDUInOrder" then PDUInOrder
    else if name == "DataSequenceInOrder" then SequenceInOrder
    else if name == "HeaderDigest" then HeaderDigest
    else if name == "DataDigest" then DataDigest
    else if name == "AuthMethod" || name == "CHAP_A" || name == "CHAP_C" || name == "CHAP_I" || name == "CHAP_N" || name == "CHAP_R"
    then Ignored
    else Unknown
  }

  /** The name that is looked up for a key that is not ignored or unknown. */
  function Name(k: Key): string {
    match k
    case InitiatorName => "InitiatorName"
    case TargetName => "TargetName"
    case SessionType => "SessionType"
    case MaxRecv => "MaxRecvDataSegmentLength"
    case MaxBurst => "MaxBurstLength"
    case FirstBurst => "FirstBurstLength"
    case MaxR2T => "MaxOutstandingR2T"
    case Time2Wait => "DefaultTime2Wait"
    case Time2Retain => "DefaultTime2Retain"
    case MaxConnections => "MaxConnections"
    case InitialR2T => "InitialR2T"
    case ImmediateData => "ImmediateData"
    case PDUInOrder => "DataPDUInOrder"
    case SequenceInOrder => "DataSequenceInOrder"
    case HeaderDigest => "HeaderDigest"
    case DataDigest => "DataDigest"
    case Ignored | Unknown => ""
  }

  predicate Named(k: Key) {
    k != Ignored && k != Unknown
  }

  /** A key is spelled by its name and by no other. */
  lemma KeyOfName(name: string, k: Key)
    requires Named(k)
    ensures KeyOf(name) == k <==> name == Name(k)
  {
    NameOfKey(name);
    NamesApart();
    hide KeyOf, Name;
  }

  lemma NameOfKey(name: string)
    ensures Named(KeyOf(name)) ==> name == Name(KeyOf(name))
  {
    NameOfOtherKey(name);
    hide OtherKeyOf;
  }

  lemma NameOfOtherKey(name: string)
    ensures Named(OtherKeyOf(name)) ==> name == Name(OtherKeyOf(name))
  {
  }

  lemma NamesApart()
    ensures forall k :: Named(k) ==> KeyOf(Name(k)) == k
  {
    Declared();
    Bursts();
    Counts();
    Starts();
    Orders();
    Digests();
    hide KeyOf, Name;
    forall k | Named(k) ensures KeyOf(Name(k)) == k {
      match k {
        case _ =>
      }
    }
  }

  lemma Declared()
    ensures KeyOf(Name(InitiatorName)) == InitiatorName && KeyOf(Name(TargetName)) == TargetName && KeyOf(Name(SessionType)) == SessionType
  {
  }

  lemma Bursts()
    ensures KeyOf(Name(MaxRecv)) == MaxRecv && KeyOf(Name(MaxBurst)) == MaxBurst && KeyOf(Name(FirstBurst)) == FirstBurst
  {
  }

  lemma Counts()
    ensures KeyOf(Name(MaxR2T)) == MaxR2T && KeyOf(Name(Time2Wait)) == Time2Wait && KeyOf(Name(Time2Retain)) == Time2Retain
  {
  }

  lemma Starts()
    ensures KeyOf(Name(MaxConnections)) == MaxConnections && KeyOf(Name(InitialR2T)) == InitialR2T && KeyOf(Name(ImmediateData)) == ImmediateData
  {
  }

  lemma Orders()
    ensures KeyOf(Name(PDUInOrder)) == PDUInOrder && KeyOf(Name(SequenceInOrder)) == SequenceInOrder
  {
  }

  lemma Digests()
    ensures KeyOf(Name(HeaderDigest)) == HeaderDigest && KeyOf(Name(DataDigest)) == DataDigest
  {
  }

  function Min(a: int, b: int): int {
    if a < b then a else b
  }

  function Max(a: int, b: int): int {
    if a > b then a else b
  }

  /** A number that is missing, malformed or negative counts as the default. */
  function ParseIntParam(s: string, default_: nat): (n: nat)
    ensures n == default_ || n <= MAX_INT
  {
    match Atoi(s)
    case None => default_
    case Some(v) => if v < 0 then default_ else v
  }

  /** "Yes" in any case; simple folding also takes the long s, written in two bytes, for an s. */
  predicate ParseBoolParam(s: string) {
    && |s| >= 3 && s[0] in "Yy" && s[1] in "Ee"
    && (s[2..] == "S" || s[2..] == "s" || s[2..] == "\U{C5}\U{BF}")
  }

  function BoolToYesNo(b: bool): string {
    if b then "Yes" else "No"
  }

  function DefaultOf(k: Key): nat {
    match k
    case MaxRecv => 65536
    case MaxBurst => 262144
    case FirstBurst => 65536
    case MaxR2T => 1
    case Time2Wait => 2
    case Time2Retain => 20
    case MaxConnections => 1
    case _ => 0
  }

  predicate Numeric(k: Key) {
    k in {MaxRecv, MaxBurst, FirstBurst, MaxR2T, Time2Wait, Time2Retain, MaxConnections}
  }

  predicate Boolean(k: Key) {
    k in {InitialR2T, ImmediateData, PDUInOrder, SequenceInOrder}
  }

  function NumberIn(p: Params, k: Key): int {
    match k
    case MaxRecv => p.maxRecv
    case MaxBurst => p.maxBurst
    case FirstBurst => p.firstBurst
    case MaxR2T => p.maxR2T
    case Time2Wait => p.time2Wait
    case Time2Retain => p.time2Retain
    case MaxConnections => p.maxConnections
    case _ => 0
  }

  function BoolIn(p: Params, k: Key): bool {
    match k
    case InitialR2T => p.initialR2T
    case ImmediateData => p.immediateData
    case PDUInOrder => p.pduInOrder
    case SequenceInOrder => p.sequenceInOrder
    case _ => false
  }

  /** The outcome for a number: the smaller of the two offers, or the larger for the time to wait. */
  function Number(k: Key, value: string, target: Params): int {
    var v := ParseIntParam(value, DefaultOf(k));
    if k == Time2Wait then Max(v, NumberIn(target, k)) else Min(v, NumberIn(target, k))
  }

  /** The outcome for a switch: on when either side wants it, or for immediate data when both do. */
  function Switch(k: Key, value: string, target: Params): bool {
    if k == ImmediateData then ParseBoolParam(value) && BoolIn(target, k) else ParseBoolParam(value) || BoolIn(target, k)
  }

  /** What is answered to a key; declarations and keys handled elsewhere get no answer. */
  function Answer(name: string, value: string, target: Params): Option<string> {
    var k := KeyOf(name);
    if Numeric(k) then Some(Itoa(Number(k, value, target)))
    else if Boolean(k) then Some(BoolToYesNo(Switch(k, value, target)))
    else if k == HeaderDigest || k == DataDigest then Some("None")
    else if k == Unknown then Some("NotUnderstood")
    else None
  }

  /** The parameters after one more key; `target` is what the target offers throughout. */
  function Settle(p: Params, name: string, value: string, target: Params): Params {
    var k := KeyOf(name);
    match k
    case InitiatorName => p.(initiatorName := value)
    case TargetName => p.(targetName := value)
    case SessionType => p.(sessionType := value)
    case MaxRecv => p.(maxRecv := Number(k, value, target))
    case MaxBurst => p.(maxBurst := Number(k, value, target))
    case FirstBurst => p.(firstBurst := Number(k, value, target))
    case MaxR2T => p.(maxR2T := Number(k, value, target))
    case Time2Wait => p.(time2Wait := Number(k, value, target))
    case Time2Retain => p.(time2Retain := Number(k, value, target))
    case MaxConnections => p.(maxConnections := Number(k, value, target))
    case InitialR2T => p.(initialR2T := Switch(k, value, target))
    case ImmediateData => p.(immediateData := Switch(k, value, target))
    case PDUInOrder => p.(pduInOrder := Switch(k, value, target))
    case SequenceInOrder => p.(sequenceInOrder := Switch(k, value, target))
    case HeaderDigest => p.(headerDigest := "None")
    case DataDigest => p.(dataDigest := "None")
    case Ignored | Unknown => p
  }

  // ---------- the outcome, key by key ----------

  function NumberFor(kv: Pairs, k: Key, target: Params): int {
    if Name(k) in kv then Number(k, kv[Name(k)], target) else NumberIn(target, k)
  }

  function SwitchFor(kv: Pairs, k: Key, target: Params): bool {
    if Name(k) in kv then Switch(k, kv[Name(k)], target) else BoolIn(target, k)
  }

  function TextFor(kv: Pairs, k: Key, otherwise: string): string {
    if Name(k) in kv then kv[Name(k)] else otherwise
  }

  function DigestFor(kv: Pairs, k: Key, otherwise: string): string {
    if Name(k) in kv then "None" else otherwise
  }

  /** Each parameter by itself: negotiated when the initiator names it, the target's own otherwise. */
  function Outcome(kv: Pairs, target: Params): Params {
    Params(
      NumberFor(kv, MaxRecv, target), NumberFor(kv, MaxBurst, target), NumberFor(kv, FirstBurst, target),
      NumberFor(kv, MaxR2T, target), NumberFor(kv, Time2Wait, target), NumberFor(kv, Time2Retain, target),
      NumberFor(kv, MaxConnections, target),
      SwitchFor(kv, InitialR2T, target), SwitchFor(kv, ImmediateData, target),
      SwitchFor(kv, PDUInOrder, target), SwitchFor(kv, SequenceInOrder, target),
      DigestFor(kv, HeaderDigest, target.headerDigest), DigestFor(kv, DataDigest, target.dataDigest),
      TextFor(kv, InitiatorName, target.initiatorName), TextFor(kv, TargetName, target.targetName),
      TextFor(kv, SessionType, target.sessionType))
  }

  function Answers(kv: Pairs, target: Params): Pairs {
    map name | name in kv && Answer(name, kv[name], target).Some? :: Answer(name, kv[name], target).value
  }

  /** One more name adds one key and leaves the others alone. */
  lemma NamedStep(kv: Pairs, name: string, value: string, k: Key)
    requires name !in kv && Named(k)
    ensures Name(k) in kv[name := value] <==> Name(k) in kv || KeyOf(name) == k
    ensures Name(k) in kv[name := value] ==> kv[name := value][Name(k)] == if KeyOf(name) == k then value else kv[Name(k)]
    ensures KeyOf(name) == k ==> Name(k) !in kv
  {
    KeyOfName(name, k);
    hide KeyOf, Name;
  }

  lemma NumberStep(kv: Pairs, name: string, value: string, target: Params, k: Key)
    requires name !in kv && Named(k)
    ensures NumberFor(kv[name := value], k, target) == if KeyOf(name) == k then Number(k, value, target) else NumberFor(kv, k, target)
    ensures SwitchFor(kv[name := value], k, target) == if KeyOf(name) == k then Switch(k, value, target) else SwitchFor(kv, k, target)
  {
    hide KeyOf, Name, Number, Switch, NumberIn, BoolIn;
    NamedStep(kv, name, value, k);
  }

  lemma TextStep(kv: Pairs, name: string, value: string, otherwise: string, k: Key)
    requires name !in kv && Named(k)
    ensures TextFor(kv[name := value], k, otherwise) == if KeyOf(name) == k then value else TextFor(kv, k, otherwise)
    ensures DigestFor(kv[name := value], k, otherwise) == if KeyOf(name) == k then "None" else DigestFor(kv, k, otherwise)
  {
    hide KeyOf, Name;
    NamedStep(kv, name, value, k);
  }

  lemma OutcomeStep(kv: Pairs, name: string, value: string, target: Params)
    requires name !in kv
    ensures Outcome(kv[name := value], target) == Settle(Outcome(kv, target), name, value, target)
  {
    hide KeyOf, Name, Number, Switch, NumberFor, SwitchFor, TextFor, DigestFor;
    NumberStep(kv, name, value, target, MaxRecv);
    NumberStep(kv, name, value, target, MaxBurst);
    NumberStep(kv, name, value, target, FirstBurst);
    NumberStep(kv, name, value, target, MaxR2T);
    NumberStep(kv, name, value, target, Time2Wait);
    NumberStep(kv, name, value, target, Time2Retain);
    NumberStep(kv, name, value, target, MaxConnections);
    NumberStep(kv, name, value, target, InitialR2T);
    NumberStep(kv, name, value, target, ImmediateData);
    NumberStep(kv, name, value, target, PDUInOrder);
    NumberStep(kv, name, value, target, SequenceInOrder);
    TextStep(kv, name, value, target.headerDigest, HeaderDigest);
    TextStep(kv, name, value, target.dataDigest, DataDigest);
    TextStep(kv, name, value, target.initiatorName, InitiatorName);
    TextStep(kv, name, value, target.targetName, TargetName);
    TextStep(kv, name, value, target.sessionType, SessionType);
  }

  lemma AnswersStep(kv: Pairs, name: string, value: string, target: Params)
    requires name !in kv
    ensures Answers(kv[name := value], target) ==
            (match Answer(name, value, target)
             case None => Answers(kv, target)
             case Some(a) => Answers(kv, target)[name := a])
  {
    hide Answer;
  }

  /** Goes through the initiator's keys in whatever order the map yields them; the outcome does not depend on it. */
  method NegotiateParams(initiatorKV: Pairs, target: Params) returns (result: Pairs, p: Params)
    ensures result == Answers(initiatorKV, target) && p == Outcome(initiatorKV, target)
    ensures NumbersSettled(initiatorKV, target, result, p) && SwitchesSettled(initiatorKV, target, result, p)
    ensures TextsSettled(initiatorKV, target, result, p) && OthersRefused(initiatorKV, result)
  {
    NumbersByKey(initiatorKV, target);
    SwitchesByKey(initiatorKV, target);
    TextsByKey(initiatorKV, target);
    OthersByName(initiatorKV, target);
    hide NumbersSettled, SwitchesSettled, TextsSettled, OthersRefused;
    result, p := map[], target;
    ghost var done: Pairs := map[];
    NothingNamed(target);
    hide Outcome, Answers, Answer, Settle;
    var left := initiatorKV.Keys;
    while left != {}
      invariant left <= initiatorKV.Keys
      invariant forall n :: n in done <==> n in initiatorKV && n !in left
      invariant forall n :: n in done ==> done[n] == initiatorKV[n]
      invariant result == Answers(done, target) && p == Outcome(done, target)
      decreases |left|
    {
      var name :| name in left;
      var value := initiatorKV[name];
      OutcomeStep(done, name, value, target);
      AnswersStep(done, name, value, target);
      left := left - {name};
      done := done[name := value];
      p := Settle(p, name, value, target);
      var answer := Answer(name, value, target);
      if answer.Some? { result := result[name := answer.value]; }
    }
    assert done == initiatorKV;
  }

  lemma NothingNamed(target: Params)
    ensures Outcome(map[], target) == target && Answers(map[], target) == map[]
  {
    hide KeyOf, Name, Number, Switch, Answer;
  }

  // ---------- what is settled, said of the two offers ----------

  /** The number a value spells, or the default when it spells none, or a negative one. */
  function OfferOf(value: string, otherwise: nat): int {
    var n := Atoi(value);
    if n.Some? && n.value >= 0 then n.value else otherwise
  }

  function Lower(c: char): char {
    if 'A' <= c <= 'Z' then c + ' ' else c
  }

  /** "yes" but for the case of its letters, the long s, in two bytes, counting as an s. */
  predicate SpellsYes(s: string) {
    |s| >= 3 && Lower(s[0]) == 'y' && Lower(s[1]) == 'e'
    && ((|s| == 3 && Lower(s[2]) == 's') || s[2..] == ['\U{C5}', '\U{BF}'])
  }

  /** A number the initiator offers is settled to the smaller of the two offers and answered in decimal; one that it
      does not offer stays the target's and is not answered. */
  ghost predicate Smaller(kv: Pairs, name: string, otherwise: nat, own: int, settled: int, answers: Pairs) {
    if name in kv then
      && settled in {OfferOf(kv[name], otherwise), own} && settled <= OfferOf(kv[name], otherwise) && settled <= own
      && name in answers && answers[name] == Itoa(settled)
    else settled == own && name !in answers
  }

  /** The same for the larger of the two. */
  ghost predicate Larger(kv: Pairs, name: string, otherwise: nat, own: int, settled: int, answers: Pairs) {
    if name in kv then
      && settled in {OfferOf(kv[name], otherwise), own} && settled >= OfferOf(kv[name], otherwise) && settled >= own
      && name in answers && answers[name] == Itoa(settled)
    else settled == own && name !in answers
  }

  /** A switch is settled to what is said of the two offers and answered with Yes or No. */
  ghost predicate Switched(kv: Pairs, name: string, own: bool, either: bool, settled: bool, answers: Pairs) {
    if name in kv then
      && (settled <==> if either then SpellsYes(kv[name]) || own else SpellsYes(kv[name]) && own)
      && name in answers && answers[name] == (if settled then "Yes" else "No")
    else settled == own && name !in answers
  }

  /** A declaration is taken as it is, and not answered. */
  ghost predicate Declares(kv: Pairs, name: string, own: string, settled: string, answers: Pairs) {
    settled == (if name in kv then kv[name] else own) && name !in answers
  }

  /** A digest is None, whatever was offered. */
  ghost predicate NoDigest(kv: Pairs, name: string, own: string, settled: string, answers: Pairs) {
    if name in kv then settled == "None" && name in answers && answers[name] == "None" else settled == own && name !in answers
  }

  ghost predicate NumbersSettled(kv: Pairs, target: Params, answers: Pairs, p: Params) {
    && Smaller(kv, "MaxRecvDataSegmentLength", 65536, target.maxRecv, p.maxRecv, answers)
    && Smaller(kv, "MaxBurstLength", 262144, target.maxBurst, p.maxBurst, answers)
    && Smaller(kv, "FirstBurstLength", 65536, target.firstBurst, p.firstBurst, answers)
    && Smaller(kv, "MaxOutstandingR2T", 1, target.maxR2T, p.maxR2T, answers)
    && Larger(kv, "DefaultTime2Wait", 2, target.time2Wait, p.time2Wait, answers)
    && Smaller(kv, "DefaultTime2Retain", 20, target.time2Retain, p.time2Retain, answers)
    && Smaller(kv, "MaxConnections", 1, target.maxConnections, p.maxConnections, answers)
  }

  ghost predicate SwitchesSettled(kv: Pairs, target: Params, answers: Pairs, p: Params) {
    && Switched(kv, "InitialR2T", target.initialR2T, true, p.initialR2T, answers)
    && Switched(kv, "ImmediateData", target.immediateData, false, p.immediateData, answers)
    && Switched(kv, "DataPDUInOrder", target.pduInOrder, true, p.pduInOrder, answers)
    && Switched(kv, "DataSequenceInOrder", target.sequenceInOrder, true, p.sequenceInOrder, answers)
  }

  ghost predicate TextsSettled(kv: Pairs, target: Params, answers: Pairs, p: Params) {
    && NoDigest(kv, "HeaderDigest", target.headerDigest, p.headerDigest, answers)
    && NoDigest(kv, "DataDigest", target.dataDigest, p.dataDigest, answers)
    && Declares(kv, "InitiatorName", target.initiatorName, p.initiatorName, answers)
    && Declares(kv, "TargetName", target.targetName, p.targetName, answers)
    && Declares(kv, "SessionType", target.sessionType, p.sessionType, answers)
  }

  const NEGOTIATED: set<string> :=
    {"MaxRecvDataSegmentLength", "MaxBurstLength", "FirstBurstLength", "MaxOutstandingR2T", "DefaultTime2Wait",
     "DefaultTime2Retain", "MaxConnections", "InitialR2T", "ImmediateData", "DataPDUInOrder", "DataSequenceInOrder",
     "HeaderDigest", "DataDigest"}

  const UNANSWERED: set<string> :=
    {"InitiatorName", "TargetName", "SessionType", "InitiatorAlias", "AuthMethod", "CHAP_A", "CHAP_C", "CHAP_I", "CHAP_N",
     "CHAP_R"}

  /** Any other name is answered with NotUnderstood, if it was offered. */
  ghost predicate OthersRefused(kv: Pairs, answers: Pairs) {
    forall name :: name !in NEGOTIATED ==>
      (name in answers <==> name in kv && name !in UNANSWERED) && (name in answers ==> answers[name] == "NotUnderstood")
  }

  lemma BooleansSpell(s: string)
    ensures ParseBoolParam(s) <==> SpellsYes(s)
  {
    if |s| >= 3 {
      assert s[2..] == "S" || s[2..] == "s" <==> |s| == 3 && (s[2] == 'S' || s[2] == 's');
      assert "\U{C5}\U{BF}" == ['\U{C5}', '\U{BF}'];
    }
  }

  lemma NumberByKey(kv: Pairs, k: Key, target: Params)
    requires Numeric(k)
    ensures k != Time2Wait ==> Smaller(kv, Name(k), DefaultOf(k), NumberIn(target, k), NumberIn(Outcome(kv, target), k), Answers(kv, target))
    ensures k == Time2Wait ==> Larger(kv, Name(k), DefaultOf(k), NumberIn(target, k), NumberIn(Outcome(kv, target), k), Answers(kv, target))
  {
    hide Outcome, Itoa, Name, KeyOf, DefaultOf;
    OutcomeIn(kv, k, target);
    KeyOfName(Name(k), k);
  }

  lemma SwitchByKey(kv: Pairs, k: Key, target: Params)
    requires Boolean(k)
    ensures Switched(kv, Name(k), BoolIn(target, k), k != ImmediateData, BoolIn(Outcome(kv, target), k), Answers(kv, target))
  {
    hide Outcome, Name, KeyOf, ParseBoolParam, SpellsYes;
    OutcomeIn(kv, k, target);
    KeyOfName(Name(k), k);
    if Name(k) in kv { BooleansSpell(kv[Name(k)]); }
  }

  lemma NumbersByKey(kv: Pairs, target: Params)
    ensures NumbersSettled(kv, target, Answers(kv, target), Outcome(kv, target))
  {
    var p, answers := Outcome(kv, target), Answers(kv, target);
    hide Smaller, Larger, Answers, Outcome;
    assert Smaller(kv, "MaxRecvDataSegmentLength", 65536, target.maxRecv, p.maxRecv, answers) by { NumberByKey(kv, MaxRecv, target); }
    assert Smaller(kv, "MaxBurstLength", 262144, target.maxBurst, p.maxBurst, answers) by { NumberByKey(kv, MaxBurst, target); }
    assert Smaller(kv, "FirstBurstLength", 65536, target.firstBurst, p.firstBurst, answers) by { NumberByKey(kv, FirstBurst, target); }
    assert Smaller(kv, "MaxOutstandingR2T", 1, target.maxR2T, p.maxR2T, answers) by { NumberByKey(kv, MaxR2T, target); }
    assert Larger(kv, "DefaultTime2Wait", 2, target.time2Wait, p.time2Wait, answers) by { NumberByKey(kv, Time2Wait, target); }
    assert Smaller(kv, "DefaultTime2Retain", 20, target.time2Retain, p.time2Retain, answers) by { NumberByKey(kv, Time2Retain, target); }
    assert Smaller(kv, "MaxConnections", 1, target.maxConnections, p.maxConnections, answers) by { NumberByKey(kv, MaxConnections, target); }
    hide Name, DefaultOf, NumberIn;
  }

  lemma SwitchesByKey(kv: Pairs, target: Params)
    ensures SwitchesSettled(kv, target, Answers(kv, target), Outcome(kv, target))
  {
    var p, answers := Outcome(kv, target), Answers(kv, target);
    hide Switched, Answers, Outcome;
    assert Switched(kv, "InitialR2T", target.initialR2T, true, p.initialR2T, answers) by { SwitchByKey(kv, InitialR2T, target); }
    assert Switched(kv, "ImmediateData", target.immediateData, false, p.immediateData, answers) by { SwitchByKey(kv, ImmediateData, target); }
    assert Switched(kv, "DataPDUInOrder", target.pduInOrder, true, p.pduInOrder, answers) by { SwitchByKey(kv, PDUInOrder, target); }
    assert Switched(kv, "DataSequenceInOrder", target.sequenceInOrder, true, p.sequenceInOrder, answers) by { SwitchByKey(kv, SequenceInOrder, target); }
    hide Name, BoolIn;
  }

  lemma TextsByKey(kv: Pairs, target: Params)
    ensures TextsSettled(kv, target, Answers(kv, target), Outcome(kv, target))
  {
    HeaderDigestByKey(kv, target);
    DataDigestByKey(kv, target);
    InitiatorNameByKey(kv, target);
    TargetNameByKey(kv, target);
    SessionTypeByKey(kv, target);
    hide NoDigest, Declares, Answers, Outcome;
  }

  lemma HeaderDigestByKey(kv: Pairs, target: Params)
    ensures NoDigest(kv, "HeaderDigest", target.headerDigest, Outcome(kv, target).headerDigest, Answers(kv, target))
  {
    assert Name(HeaderDigest) == "HeaderDigest";
    hide *;
    OutcomeTexts(kv, target);
    DigestByKey(kv, HeaderDigest, target.headerDigest, target);
  }

  lemma DataDigestByKey(kv: Pairs, target: Params)
    ensures NoDigest(kv, "DataDigest", target.dataDigest, Outcome(kv, target).dataDigest, Answers(kv, target))
  {
    assert Name(DataDigest) == "DataDigest";
    hide *;
    OutcomeTexts(kv, target);
    DigestByKey(kv, DataDigest, target.dataDigest, target);
  }

  lemma InitiatorNameByKey(kv: Pairs, target: Params)
    ensures Declares(kv, "InitiatorName", target.initiatorName, Outcome(kv, target).initiatorName, Answers(kv, target))
  {
    OutcomeTexts(kv, target);
    TextByKey(kv, InitiatorName, target.initiatorName, target);
    hide Declares, Answers, Outcome, TextFor, DigestFor;
  }

  lemma TargetNameByKey(kv: Pairs, target: Params)
    ensures Declares(kv, "TargetName", target.targetName, Outcome(kv, target).targetName, Answers(kv, target))
  {
    OutcomeTexts(kv, target);
    TextByKey(kv, TargetName, target.targetName, target);
    hide Declares, Answers, Outcome, TextFor, DigestFor;
  }

  lemma SessionTypeByKey(kv: Pairs, target: Params)
    ensures Declares(kv, "SessionType", target.sessionType, Outcome(kv, target).sessionType, Answers(kv, target))
  {
    OutcomeTexts(kv, target);
    TextByKey(kv, SessionType, target.sessionType, target);
    hide Declares, Answers, Outcome, TextFor, DigestFor;
  }

  lemma OutcomeTexts(kv: Pairs, target: Params)
    ensures var p := Outcome(kv, target);
      && p.headerDigest == DigestFor(kv, HeaderDigest, target.headerDigest)
      && p.dataDigest == DigestFor(kv, DataDigest, target.dataDigest)
      && p.initiatorName == TextFor(kv, InitiatorName, target.initiatorName)
      && p.targetName == TextFor(kv, TargetName, target.targetName)
      && p.sessionType == TextFor(kv, SessionType, target.sessionType)
  {
    hide NumberFor, SwitchFor, TextFor, DigestFor;
  }

  lemma DigestByKey(kv: Pairs, k: Key, own: string, target: Params)
    requires k in {HeaderDigest, DataDigest}
    ensures NoDigest(kv, Name(k), own, DigestFor(kv, k, own), Answers(kv, target))
  {
    AnswerFor(kv, k, target);
    if Name(k) in kv { DigestAnswered(kv, k, target); }
    hide KeyOf, Name, Answers;
  }

  lemma TextByKey(kv: Pairs, k: Key, own: string, target: Params)
    requires k in {InitiatorName, TargetName, SessionType}
    ensures Declares(kv, Name(k), own, TextFor(kv, k, own), Answers(kv, target))
  {
    AnswerFor(kv, k, target);
    hide KeyOf, Name, Answers;
  }

  /** Which names are unknown, and which are known and get no answer. */
  lemma NamesSorted(name: string)
    ensures KeyOf(name) == Unknown <==> name !in NEGOTIATED && name !in UNANSWERED
    ensures KeyOf(name) in {InitiatorName, TargetName, SessionType, Ignored} <==> name in UNANSWERED
  {
    OthersSorted(name);
    hide OtherKeyOf;
    if name in FIRST_NAMES { FirstSorted(name); }
  }

  const FIRST_NAMES: set<string> :=
    {"InitiatorName", "TargetName", "SessionType", "InitiatorAlias", "MaxRecvDataSegmentLength", "MaxBurstLength",
     "FirstBurstLength", "MaxOutstandingR2T", "DefaultTime2Wait", "DefaultTime2Retain", "MaxConnections"}

  lemma FirstSorted(name: string)
    requires name in FIRST_NAMES
    ensures KeyOf(name) != Unknown
    ensures KeyOf(name) in {InitiatorName, TargetName, SessionType, Ignored} <==>
            name in {"InitiatorName", "TargetName", "SessionType", "InitiatorAlias"}
  {
  }

  lemma OthersSorted(name: string)
    ensures OtherKeyOf(name) == Unknown <==>
            name !in {"InitialR2T", "ImmediateData", "DataPDUInOrder", "DataSequenceInOrder", "HeaderDigest", "DataDigest",
                      "AuthMethod", "CHAP_A", "CHAP_C", "CHAP_I", "CHAP_N", "CHAP_R"}
    ensures OtherKeyOf(name) == Ignored <==> name in {"AuthMethod", "CHAP_A", "CHAP_C", "CHAP_I", "CHAP_N", "CHAP_R"}
    ensures OtherKeyOf(name) !in {InitiatorName, TargetName, SessionType}
  {
  }

  lemma OthersByName(kv: Pairs, target: Params)
    ensures OthersRefused(kv, Answers(kv, target))
  {
    forall name | name !in NEGOTIATED
      ensures name in Answers(kv, target) <==> name in kv && name !in UNANSWERED
      ensures name in Answers(kv, target) ==> Answers(kv, target)[name] == "NotUnderstood" {
      OtherAnswered(kv, name, target);
    }
  }

  lemma OtherAnswered(kv: Pairs, name: string, target: Params)
    requires name !in NEGOTIATED
    ensures name in Answers(kv, target) <==> name in kv && name !in UNANSWERED
    ensures name in Answers(kv, target) ==> Answers(kv, target)[name] == "NotUnderstood"
  {
    NamesSorted(name);
    hide KeyOf, Itoa, Number, Switch;
  }

  // ---------- negotiating again ----------

  /** The numbers of an offer are 64-bit. */
  predicate Sized(p: Params) {
    forall k :: Numeric(k) ==> -MAX_INT - 1 <= NumberIn(p, k) <= MAX_INT
  }

  lemma NumberAgain(k: Key, value: string, target: Params, settled: Params)
    requires Numeric(k) && Sized(target) && NumberIn(settled, k) == Number(k, value, target)
    ensures Number(k, Itoa(Number(k, value, target)), settled) == Number(k, value, target)
  {
    var n := Number(k, value, target);
    var v := ParseIntParam(value, DefaultOf(k));
    assert -MAX_INT - 1 <= NumberIn(target, k) <= MAX_INT;
    ItoaAtoi(n);
    hide Atoi, Itoa, NumberIn;
  }

  lemma SwitchAgain(k: Key, value: string, target: Params, settled: Params)
    requires Boolean(k) && BoolIn(settled, k) == Switch(k, value, target)
    ensures Switch(k, BoolToYesNo(Switch(k, value, target)), settled) == Switch(k, value, target)
  {
  }

  lemma OutcomeIn(kv: Pairs, k: Key, target: Params)
    ensures Numeric(k) ==> NumberIn(Outcome(kv, target), k) == NumberFor(kv, k, target)
    ensures Boolean(k) ==> BoolIn(Outcome(kv, target), k) == SwitchFor(kv, k, target)
  {
    hide NumberFor, SwitchFor, TextFor, DigestFor;
  }

  /** Offering the target's own answers to it again, with what was settled as its offer, gives the same
      answers and settles the same parameters. */
  lemma NegotiateAgain(kv: Pairs, target: Params)
    requires Sized(target)
    ensures Answers(Answers(kv, target), Outcome(kv, target)) == Answers(kv, target)
    ensures Outcome(Answers(kv, target), Outcome(kv, target)) == Outcome(kv, target)
  {
    hide Answer, Outcome;
    forall name | name in Answers(kv, target)
      ensures Answer(name, Answers(kv, target)[name], Outcome(kv, target)) == Some(Answers(kv, target)[name]) {
      AnswerAgain(kv, name, target);
    }
    assert Answers(Answers(kv, target), Outcome(kv, target)) == Answers(kv, target);
    hide Answers;
    OutcomeAgain(kv, target);
  }

  lemma OutcomeAgain(kv: Pairs, target: Params)
    requires Sized(target)
    ensures Outcome(Answers(kv, target), Outcome(kv, target)) == Outcome(kv, target)
  {
    NumberSettled(kv, MaxRecv, target);
    NumberSettled(kv, MaxBurst, target);
    NumberSettled(kv, FirstBurst, target);
    NumberSettled(kv, MaxR2T, target);
    NumberSettled(kv, Time2Wait, target);
    NumberSettled(kv, Time2Retain, target);
    NumberSettled(kv, MaxConnections, target);
    SwitchSettled(kv, InitialR2T, target);
    SwitchSettled(kv, ImmediateData, target);
    SwitchSettled(kv, PDUInOrder, target);
    SwitchSettled(kv, SequenceInOrder, target);
    TextSettled(kv, InitiatorName, target.initiatorName, target);
    TextSettled(kv, TargetName, target.targetName, target);
    TextSettled(kv, SessionType, target.sessionType, target);
    DigestSettled(kv, HeaderDigest, target.headerDigest, target);
    DigestSettled(kv, DataDigest, target.dataDigest, target);
    hide Answers, NumberFor, SwitchFor, TextFor, DigestFor, Name, Number, Switch, KeyOf, Answer;
  }

  lemma AnswerAgain(kv: Pairs, name: string, target: Params)
    requires Sized(target) && name in Answers(kv, target)
    ensures Answer(name, Answers(kv, target)[name], Outcome(kv, target)) == Some(Answers(kv, target)[name])
  {
    hide KeyOf, Outcome, Number, Switch, Itoa;
    var k, settled := KeyOf(name), Outcome(kv, target);
    OutcomeIn(kv, k, target);
    if Named(k) { KeyOfName(name, k); }
    hide Name;
    if Numeric(k) {
      NumberAgain(k, kv[name], target, settled);
    } else if Boolean(k) {
      SwitchAgain(k, kv[name], target, settled);
    }
  }

  lemma NumberSettled(kv: Pairs, k: Key, target: Params)
    requires Sized(target) && Numeric(k)
    ensures NumberFor(Answers(kv, target), k, Outcome(kv, target)) == NumberIn(Outcome(kv, target), k)
  {
    hide Outcome, Number, Itoa, Name, KeyOf;
    OutcomeIn(kv, k, target);
    KeyOfName(Name(k), k);
    if Name(k) in kv { NumberAgain(k, kv[Name(k)], target, Outcome(kv, target)); }
  }

  lemma SwitchSettled(kv: Pairs, k: Key, target: Params)
    requires Boolean(k)
    ensures SwitchFor(Answers(kv, target), k, Outcome(kv, target)) == BoolIn(Outcome(kv, target), k)
  {
    hide Outcome, Switch, Name, KeyOf;
    OutcomeIn(kv, k, target);
    KeyOfName(Name(k), k);
    if Name(k) in kv { SwitchAgain(k, kv[Name(k)], target, Outcome(kv, target)); }
  }

  /** Which names are answered, and how, key by key. */
  lemma AnswerFor(kv: Pairs, k: Key, target: Params)
    requires Named(k)
    ensures k in {InitiatorName, TargetName, SessionType} ==> Name(k) !in Answers(kv, target)
    ensures Name(k) !in kv ==> Name(k) !in Answers(kv, target)
  {
    KeyOfName(Name(k), k);
    hide KeyOf, Name, Number, Switch, Itoa, BoolToYesNo, NumberIn, BoolIn, OtherKeyOf;
  }

  lemma DigestAnswered(kv: Pairs, k: Key, target: Params)
    requires k in {HeaderDigest, DataDigest} && Name(k) in kv
    ensures Name(k) in Answers(kv, target) && Answers(kv, target)[Name(k)] == "None"
  {
    KeyOfName(Name(k), k);
    hide KeyOf, Name, Number, Switch, Itoa, BoolToYesNo, NumberIn, BoolIn, OtherKeyOf;
  }

  lemma TextSettled(kv: Pairs, k: Key, otherwise: string, target: Params)
    requires k in {InitiatorName, TargetName, SessionType}
    ensures TextFor(Answers(kv, target), k, TextFor(kv, k, otherwise)) == TextFor(kv, k, otherwise)
  {
    AnswerFor(kv, k, target);
    hide Name, Answers;
  }

  lemma DigestSettled(kv: Pairs, k: Key, otherwise: string, target: Params)
    requires k in {HeaderDigest, DataDigest}
    ensures DigestFor(Answers(kv, target), k, DigestFor(kv, k, otherwise)) == DigestFor(kv, k, otherwise)
  {
    AnswerFor(kv, k, target);
    if Name(k) in kv { DigestAnswered(kv, k, target); }
    hide Name, Answers;
  }
}
