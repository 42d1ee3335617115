/**
 Retry-safe creation of ownership groups: a lookup by creation key, an insert under a unique sparse index, and a
 second lookup when the insert loses the race. Calls interleave at each of these steps.
 */
module GroupCreation {
  import opened Prelude
  import Text

  type UserId = string
  type GroupId = nat

  /** What the caller sends; `creationKey` is present here. A field that is left out differs from an empty one. */
  datatype Input = Input(
    user: UserId,
    creationKey: string,
    name: Option<string>,
    description: Option<string>,
    capabilities: Option<string>
  )

  /** SHA-256 of the JSON of these fields, taken as injective. */
  datatype Fingerprint = Fingerprint(name: Option<string>, description: Option<string>, capabilities: Option<string>)

  function FingerprintOf(input: Input): Fingerprint {
    Fingerprint(input.name, input.description, input.capabilities)
  }

  /** The text whose SHA-256 is the stored creation key; the digest is taken as injective. */
  function KeyOf(input: Input): string {
    input.user + ":" + input.creationKey
  }

  predicate KeyOk(creationKey: string) {
    Text.Trim(creationKey) != "" && |creationKey| <= 200
  }

  /** A stored group; groups created without a key have none. Ids are positions in the collection. */
  datatype Doc = Doc(key: Option<string>, fingerprint: Option<Fingerprint>, owner: UserId)

  type Collection = seq<Doc>

  /** `findOne({ creationKey })`. */
  function FindByKey(docs: Collection, key: string): Option<GroupId> {
    if docs == [] then None
    else if docs[|docs| - 1].key == Some(key) then Some(|docs| - 1)
    else FindByKey(docs[..|docs| - 1], key)
  }

  /** Insert under the unique index: None is the duplicate key error 11000. */
  function OnInsert(docs: Collection, doc: Doc): Option<Collection> {
    if doc.key.Some? && FindByKey(docs, doc.key.value).Some? then None else Some(docs + [doc])
  }

  class GroupStore {
    var docs: Collection

    constructor ()
      ensures docs == []
    {
      docs := [];
    }

    method Insert(doc: Doc) returns (duplicate: bool)
      modifies this
      ensures duplicate <==> OnInsert(old(docs), doc).None?
      ensures docs == if duplicate then old(docs) else OnInsert(old(docs), doc).value
    {
      if doc.key.Some? && FindByKey(docs, doc.key.value).Some? {
        return true;
      }
      docs := docs + [doc];
      duplicate := false;
    }

    /** A call that nobody interrupts. */
    method CreateGroup(input: Input) returns (r: Outcome)
      modifies this
      ensures (docs, r) == OnCreate(old(docs), input)
    {
      if !KeyOk(input.creationKey) {
        return BadRequest;
      }
      var existing := FindByKey(docs, KeyOf(input));
      if existing.Some? {
        return Reuse(docs, existing, input);
      }
      docs := docs + [NewDoc(input)];
      r := Success(|docs| - 1);
    }
  }

  /** Creation without interruption: validate the key, reuse, refuse a reused key with other input, or create. */
  function OnCreate(docs: Collection, input: Input): (Collection, Outcome) {
    var existing := FindByKey(docs, KeyOf(input));
    if !KeyOk(input.creationKey) then (docs, BadRequest)
    else if existing.Some? then (docs, Reuse(docs, existing, input))
    else (docs + [NewDoc(input)], Success(|docs|))
  }

  function NewDoc(input: Input): Doc {
    Doc(Some(KeyOf(input)), Some(FingerprintOf(input)), input.user)
  }

  // ---------------------------------------------------------------- interleaved calls

  datatype Outcome = Success(group: GroupId) | BadRequest | KeyReused | Failed

  datatype Phase = Looking | Inserting | Relooking | Done(outcome: Outcome)

  datatype Call = Call(input: Input, phase: Phase)

  datatype Session = Session(docs: Collection, calls: seq<Call>)

  datatype Event =
    | Begin(input: Input)
    | Advance(k: nat)                  // the pending database operation of call k completes
    | Fail(k: nat)                     // or fails for another reason than a duplicate key
    | CreatePlain(user: UserId)        // a creation without key

  /** `reuse`, and the error of a second lookup that finds nothing. */
  function Reuse(docs: Collection, found: Option<GroupId>, input: Input): Outcome {
    if found.None? || found.value >= |docs| then Failed
    else if docs[found.value].fingerprint == Some(FingerprintOf(input)) then Success(found.value)
    else KeyReused
  }

  function SetPhase(s: Session, k: nat, phase: Phase): Session
    requires k < |s.calls|
  {
    s.(calls := s.calls[k := s.calls[k].(phase := phase)])
  }

  function Next(s: Session, e: Event): Session {
    match e
    case Begin(input) =>
      s.(calls := s.calls + [Call(input, if KeyOk(input.creationKey) then Looking else Done(BadRequest))])
    case CreatePlain(user) => s.(docs := s.docs + [Doc(None, None, user)])
    case Fail(k) => if k < |s.calls| && !s.calls[k].phase.Done? then SetPhase(s, k, Done(Failed)) else s
    case Advance(k) =>
      if k >= |s.calls| then s else
        var input := s.calls[k].input;
        var found := FindByKey(s.docs, KeyOf(input));
        match s.calls[k].phase
        case Looking =>
          if found.Some? then SetPhase(s, k, Done(Reuse(s.docs, found, input))) else SetPhase(s, k, Inserting)
        case Inserting =>
          var inserted := OnInsert(s.docs, NewDoc(input));
          if inserted.Some? then SetPhase(s, k, Done(Success(|s.docs|))).(docs := inserted.value)
          else SetPhase(s, k, Relooking)
        case Relooking => SetPhase(s, k, Done(Reuse(s.docs, found, input)))
        case Done(_) => s
  }

  function Replay(s: Session, run: seq<Event>): Session
    decreases |run|
  {
    if run == [] then s else Replay(Next(s, run[0]), run[1..])
  }

  ghost predicate Unique(docs: Collection) {
    forall i, j | 0 <= i < j < |docs| && docs[i].key.Some? :: docs[i].key != docs[j].key
  }

  /** A successful call returned the group stored under its key, whose fingerprint is its own. */
  ghost predicate CallOk(docs: Collection, c: Call) {
    match c.phase
    case Done(Success(id)) =>
      id < |docs| && docs[id] == Doc(Some(KeyOf(c.input)), Some(FingerprintOf(c.input)), docs[id].owner)
    case Relooking => FindByKey(docs, KeyOf(c.input)).Some?
    case Done(KeyReused) => exists id: GroupId :: id < |docs| && OtherInput(docs[id], c.input)
    case Done(BadRequest) => !KeyOk(c.input.creationKey)
    case _ => true
  }

  /** A group with the key of the call and another fingerprint. */
  predicate OtherInput(d: Doc, input: Input) {
    d.key == Some(KeyOf(input)) && d.fingerprint != Some(FingerprintOf(input))
  }

  ghost predicate Inv(s: Session) {
    && Unique(s.docs)
    && (forall c <- s.calls :: c.phase == Done(BadRequest) || KeyOk(c.input.creationKey))
    && (forall d <- s.docs :: d.key.Some? ==> d.fingerprint.Some?)
    && (forall c <- s.calls :: CallOk(s.docs, c))
  }

  lemma {:induction false} FindByKeyFinds(docs: Collection, key: string)
    ensures var found := FindByKey(docs, key);
            found.Some? ==> found.value < |docs| && docs[found.value].key == Some(key)
    ensures FindByKey(docs, key).None? ==> forall i | 0 <= i < |docs| :: docs[i].key != Some(key)
  {
    if docs != [] {
      FindByKeyFinds(docs[..|docs| - 1], key);
    }
  }

  lemma AppendKeepsCall(docs: Collection, doc: Doc, c: Call)
    requires CallOk(docs, c)
    ensures CallOk(docs + [doc], c)
  {
    if c.phase.Relooking? {
      FindByKeyFinds(docs, KeyOf(c.input));
      FindByKeyFinds(docs + [doc], KeyOf(c.input));
      var i := FindByKey(docs, KeyOf(c.input)).value;
      assert (docs + [doc])[i].key == Some(KeyOf(c.input));
    } else if c.phase == Done(KeyReused) {
      var id: GroupId :| id < |docs| && OtherInput(docs[id], c.input);
      assert OtherInput((docs + [doc])[id], c.input);
    }
  }

  lemma NextKeepsInv(s: Session, e: Event)
    requires Inv(s)
    ensures Inv(Next(s, e))
    ensures s.docs <= Next(s, e).docs
  {
    var next := Next(s, e);
    forall c <- s.calls ensures CallOk(next.docs, c) {
      if next.docs != s.docs {
        AppendKeepsCall(s.docs, next.docs[|s.docs|], c);
        assert next.docs == s.docs + [next.docs[|s.docs|]];
      }
    }
    if e.Advance? && e.k < |s.calls| {
      var c := s.calls[e.k];
      assert c in s.calls;
      FindByKeyFinds(s.docs, KeyOf(c.input));
    }
    forall c <- next.calls ensures CallOk(next.docs, c) {
      var i :| 0 <= i < |next.calls| && next.calls[i] == c;
      if i < |s.calls| && next.calls[i] == s.calls[i] {
        assert c in s.calls;
      }
    }
  }

  lemma {:induction false} EveryRunKeepsInv(s: Session, run: seq<Event>)
    requires Inv(s)
    ensures Inv(Replay(s, run))
    ensures s.docs <= Replay(s, run).docs
    decreases |run|
  {
    if run != [] {
      NextKeepsInv(s, run[0]);
      EveryRunKeepsInv(Next(s, run[0]), run[1..]);
    }
  }

  /**
   In every interleaving all successful calls of one user with one key return the same group, all of them sent the
   input it was stored with, and no other group has that key.
   */
  lemma RetriesShareOneGroup(run: seq<Event>, i: nat, j: nat)
    requires var s := Replay(Session([], []), run);
             && i < |s.calls| && s.calls[i].phase.Done? && s.calls[i].phase.outcome.Success?
             && j < |s.calls| && s.calls[j].phase.Done? && s.calls[j].phase.outcome.Success?
             && s.calls[i].input.user == s.calls[j].input.user
             && s.calls[i].input.creationKey == s.calls[j].input.creationKey
    ensures var s := Replay(Session([], []), run);
            var id := s.calls[i].phase.outcome.group;
            && s.calls[j].phase.outcome.group == id
            && FingerprintOf(s.calls[i].input) == FingerprintOf(s.calls[j].input)
            && id < |s.docs| && s.docs[id].fingerprint == Some(FingerprintOf(s.calls[i].input))
            && (forall other |
                  0 <= other < |s.docs| && s.docs[other].key == Some(KeyOf(s.calls[i].input)) :: other == id)
  {
    EveryRunKeepsInv(Session([], []), run);
    var s := Replay(Session([], []), run);
    assert CallOk(s.docs, s.calls[i]) && CallOk(s.docs, s.calls[j]);
  }

  /** Which keys are refused: blank ones and those of more than 200 characters, whatever else is stored. */
  lemma BadKeysAreRefused(docs: Collection, input: Input)
    ensures OnCreate(docs, input).1 == BadRequest <==>
            (forall c <- input.creationKey :: Text.IsSpace(c)) || |input.creationKey| > 200
    ensures OnCreate(docs, input).1 == BadRequest ==> OnCreate(docs, input).0 == docs
  {
    Text.BlankExactly(input.creationKey);
  }

  /** Without a key every creation makes a new group of its own. */
  lemma PlainCreationsAlwaysCreate(s: Session, user: UserId)
    ensures var after := Next(s, CreatePlain(user));
            && after.docs == s.docs + [Doc(None, None, user)] && after.calls == s.calls
  {
  }

  /** A database error ends the call it hits and nothing else. */
  lemma ErrorEndsTheCall(s: Session, k: nat)
    requires k < |s.calls| && !s.calls[k].phase.Done?
    ensures var after := Next(s, Fail(k));
            && after.docs == s.docs && |after.calls| == |s.calls|
            && after.calls[k] == Call(s.calls[k].input, Done(Failed))
            && forall i | 0 <= i < |s.calls| && i != k :: after.calls[i] == s.calls[i]
  {
  }

  /** Sending the same request again returns the same group and creates none. */
  lemma RepeatedSuccess(docs: Collection, input: Input)
    requires OnCreate(docs, input).1.Success?
    ensures OnCreate(OnCreate(docs, input).0, input) == OnCreate(docs, input)
  {
    FindByKeyFinds(docs, KeyOf(input));
  }

  /** With other input under the key of an earlier success the request is refused and creates nothing. */
  lemma OtherInputIsRefused(docs: Collection, input: Input, other: Input)
    requires OnCreate(docs, input).1.Success? && KeyOf(other) == KeyOf(input) && KeyOk(other.creationKey)
    requires (other.name, other.description, other.capabilities) != (input.name, input.description, input.capabilities)
    ensures var after := OnCreate(docs, input).0; OnCreate(after, other) == (after, KeyReused)
  {
    FindByKeyFinds(docs, KeyOf(input));
  }

  lemma SetLast(docs: Collection, calls: seq<Call>, c: Call, phase: Phase)
    ensures SetPhase(Session(docs, calls + [c]), |calls|, phase) == Session(docs, calls + [c.(phase := phase)])
  {
    assert (calls + [c])[|calls| := c.(phase := phase)] == calls + [c.(phase := phase)];
  }

  /** A lookup of the last call. */
  lemma LastLooks(docs: Collection, calls: seq<Call>, input: Input)
    ensures var found := FindByKey(docs, KeyOf(input));
            var phase := if found.Some? then Done(Reuse(docs, found, input)) else Inserting;
            Next(Session(docs, calls + [Call(input, Looking)]), Advance(|calls|)) ==
            Session(docs, calls + [Call(input, phase)])
  {
    var found := FindByKey(docs, KeyOf(input));
    SetLast(docs, calls, Call(input, Looking), if found.Some? then Done(Reuse(docs, found, input)) else Inserting);
  }

  /** Its insert, unless the key is taken. */
  lemma LastInserts(docs: Collection, calls: seq<Call>, input: Input)
    requires FindByKey(docs, KeyOf(input)).None?
    ensures Next(Session(docs, calls + [Call(input, Inserting)]), Advance(|calls|)) ==
            Session(docs + [NewDoc(input)], calls + [Call(input, Done(Success(|docs|)))])
  {
    SetLast(docs, calls, Call(input, Inserting), Done(Success(|docs|)));
  }

  /** The uninterrupted call is the run of its own steps: whoever is not raced never looks twice. */
  lemma {:induction false} CreateIsItsOwnRun(s: Session, input: Input)
    ensures var (docs, outcome) := OnCreate(s.docs, input);
            var n := |s.calls|;
            Replay(s, [Begin(input), Advance(n), Advance(n)]) == Session(docs, s.calls + [Call(input, Done(outcome))])
  {
    var n := |s.calls|;
    ReplayThree(s, Begin(input), Advance(n), Advance(n));
    if KeyOk(input.creationKey) {
      LastLooks(s.docs, s.calls, input);
      if FindByKey(s.docs, KeyOf(input)).None? {
        LastInserts(s.docs, s.calls, input);
      }
    }
  }

  lemma ReplayThree(s: Session, a: Event, b: Event, c: Event)
    ensures Replay(s, [a, b, c]) == Next(Next(Next(s, a), b), c)
  {
    var last := Next(Next(Next(s, a), b), c);
    assert [a, b, c][1..] == [b, c] && [b, c][1..] == [c] && [c][1..] == [];
    assert Replay(last, []) == last;
    assert Replay(Next(Next(s, a), b), [c]) == last;
  }

  /** A call fails only because its database operation did. */
  lemma {:induction false} FailedWasHit(s: Session, run: seq<Event>, hit: set<nat>, k: nat)
    requires Inv(s)
    requires forall i: nat | i < |s.calls| && s.calls[i].phase == Done(Failed) :: i in hit
    requires k < |Replay(s, run).calls| && Replay(s, run).calls[k].phase == Done(Failed)
    ensures k in hit || Fail(k) in run
    decreases |run|
  {
    if run != [] {
      var e := run[0];
      var next := Next(s, e);
      NextKeepsInv(s, e);
      if e.Advance? && e.k < |s.calls| {
        assert CallOk(s.docs, s.calls[e.k]);
        FindByKeyFinds(s.docs, KeyOf(s.calls[e.k].input));
      }
      FailedWasHit(next, run[1..], if e.Fail? then hit + {e.k} else hit, k);
      assert Fail(k) in run[1..] ==> Fail(k) in run;
    }
  }

  /**
   Retries succeed: once a call has succeeded, every other finished call of the user with that key and the same input
   returned the same group, unless its database operation failed; one with other input was told that the key is used.
   */
  lemma RetriesSucceed(run: seq<Event>, i: nat, j: nat)
    requires var s := Replay(Session([], []), run);
             && i < |s.calls| && s.calls[i].phase.Done? && s.calls[i].phase.outcome.Success?
             && j < |s.calls| && s.calls[j].phase.Done?
             && s.calls[i].input.user == s.calls[j].input.user
             && s.calls[i].input.creationKey == s.calls[j].input.creationKey
    ensures var s := Replay(Session([], []), run);
            var a, b := s.calls[i].input, s.calls[j].input;
            var same := (a.name, a.description, a.capabilities) == (b.name, b.description, b.capabilities);
            || s.calls[j].phase.outcome == (if same then s.calls[i].phase.outcome else KeyReused)
            || (s.calls[j].phase.outcome == Failed && Fail(j) in run)
  {
    EveryRunKeepsInv(Session([], []), run);
    var s := Replay(Session([], []), run);
    assert CallOk(s.docs, s.calls[i]) && CallOk(s.docs, s.calls[j]);
    if s.calls[j].phase.outcome == Failed {
      FailedWasHit(Session([], []), run, {}, j);
    } else if s.calls[j].phase.outcome == KeyReused {
      var id: GroupId :| id < |s.docs| && OtherInput(s.docs[id], s.calls[j].input);
      assert id == s.calls[i].phase.outcome.group;
    }
  }

  /** Every stored key is scoped to the owner of its group. */
  ghost predicate Scoped(s: Session) {
    && (forall d <- s.docs | d.key.Some? :: ':' !in d.owner && exists rest :: d.key == Some(d.owner + ":" + rest))
    && (forall c <- s.calls :: ':' !in c.input.user)
  }

  lemma {:induction false} EveryRunIsScoped(s: Session, run: seq<Event>)
    requires Scoped(s) && forall e <- run | e.Begin? :: ':' !in e.input.user
    ensures Scoped(Replay(s, run))
    decreases |run|
  {
    if run != [] {
      assert run[0] in run;
      NextIsScoped(s, run[0]);
      assert forall e <- run[1..] :: e in run;
      EveryRunIsScoped(Next(s, run[0]), run[1..]);
    }
  }

  lemma NextIsScoped(s: Session, e: Event)
    requires Scoped(s) && (e.Begin? ==> ':' !in e.input.user)
    ensures Scoped(Next(s, e))
  {
    var next := Next(s, e);
    forall c <- next.calls ensures ':' !in c.input.user {
      var i :| 0 <= i < |next.calls| && next.calls[i] == c;
      if i < |s.calls| {
        assert s.calls[i] in s.calls;
      }
    }
    if e.Advance? && next.docs != s.docs {
      var input := s.calls[e.k].input;
      assert s.calls[e.k] in s.calls;
      assert NewDoc(input).key == Some(NewDoc(input).owner + ":" + input.creationKey);
    }
  }

  /** Nobody is handed the group of someone else, where no user id contains a colon: success returns an own group. */
  lemma SuccessIsOwn(run: seq<Event>, k: nat)
    requires forall e <- run | e.Begin? :: ':' !in e.input.user
    requires var s := Replay(Session([], []), run);
             k < |s.calls| && s.calls[k].phase.Done? && s.calls[k].phase.outcome.Success?
    ensures var s := Replay(Session([], []), run);
            var id := s.calls[k].phase.outcome.group;
            id < |s.docs| && s.docs[id].owner == s.calls[k].input.user
  {
    EveryRunKeepsInv(Session([], []), run);
    EveryRunIsScoped(Session([], []), run);
    var s := Replay(Session([], []), run);
    var c := s.calls[k];
    assert CallOk(s.docs, c) && c in s.calls;
    var d := s.docs[c.phase.outcome.group];
    assert d in s.docs;
    var rest :| d.key == Some(d.owner + ":" + rest);
    KeysAreScoped(Input(d.owner, rest, None, None, None), c.input);
  }

  /** No call hangs: its own next three database operations finish it, raced or not. */
  lemma ThreeStepsFinish(s: Session, k: nat)
    requires k < |s.calls|
    ensures Next(Next(Next(s, Advance(k)), Advance(k)), Advance(k)).calls[k].phase.Done?
  {
  }

  /** The second lookup always finds the winner, so losing the race alone never makes a call fail. */
  lemma LosingTheRaceIsHarmless(run: seq<Event>, k: nat)
    requires var s := Replay(Session([], []), run);
             k < |s.calls| && s.calls[k].phase.Relooking?
    ensures var s := Replay(Session([], []), run);
            var phase := Next(s, Advance(k)).calls[k].phase;
            && phase.Done?
            && (phase.outcome == KeyReused || (phase.outcome.Success? && phase.outcome.group < |s.docs|))
  {
    EveryRunKeepsInv(Session([], []), run);
    var s := Replay(Session([], []), run);
    assert CallOk(s.docs, s.calls[k]);
    FindByKeyFinds(s.docs, KeyOf(s.calls[k].input));
  }

  /** Keys are scoped to the user as long as user ids contain no colon. */
  lemma KeysAreScoped(a: Input, b: Input)
    requires ':' !in a.user && ':' !in b.user
    ensures KeyOf(a) == KeyOf(b) <==> a.user == b.user && a.creationKey == b.creationKey
  {
    var ka, kb := KeyOf(a), KeyOf(b);
    assert ka[|a.user|] == ':' && kb[|b.user|] == ':';
    if |a.user| < |b.user| {
      var c := b.user[|a.user|];
      assert kb[|a.user|] == c && c in b.user;
    } else if |b.user| < |a.user| {
      var c := a.user[|b.user|];
      assert ka[|b.user|] == c && c in a.user;
    } else {
      assert a.user == ka[..|a.user|] && b.user == kb[..|a.user|];
      assert a.creationKey == ka[|a.user| + 1..] && b.creationKey == kb[|a.user| + 1..];
    }
  }
}
