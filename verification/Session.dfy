/** Console sessions over lagging nodes: logins, concurrent first keys, rotations, API key changes
    and cookie checks (crates/rift-cluster-server/src/admin_front.rs,
    crates/rift-cluster-server/src/session.rs).

    The cryptography is ideal: a derived signing key is the pair it was derived from, and a token
    names the key that signed it, so only the signer's key verifies it.
 */
module Session {
  import opened Text
  import opened Control
  import opened StateMachine
  import opened Dedup
  import opened Revisions

  const SESSION_TTL_SECS: nat := 8 * 60 * 60

  datatype SigningKey = SigningKey(key: string, apiKey: string, revision: nat)

  /** Signed claims: who signed, the key revision, and when they lapse. */
  datatype Token = Token(key: string, apiKey: string, kr: nat, exp: nat)

  predicate Usable(key: string) { IsHex(key) && |key| / 2 == SESSION_KEY_BYTES }

  /** The replicated record bound to this node's API key. */
  function Derive(record: SessionKey, apiKey: string): Option<SigningKey> {
    if Usable(record.key) then Some(SigningKey(record.key, apiKey, record.revision)) else None
  }

  /** A record signs exactly when its key is 64 hex digits; the signing key is the record's under the
      node's API key. */
  lemma DerivesIff(record: SessionKey, apiKey: string)
    ensures Derive(record, apiKey).Some? <==>
            |record.key| == 64 && forall i :: 0 <= i < |record.key| ==> record.key[i] in "0123456789abcdefABCDEF"
    ensures Derive(record, apiKey).Some? ==> Derive(record, apiKey) == Some(SigningKey(record.key, apiKey, record.revision))
  {
    assert forall c: char :: IsHexDigit(c) <==> c in "0123456789abcdefABCDEF";
  }

  function MintToken(signing: SigningKey, now: nat): Token {
    Token(signing.key, signing.apiKey, signing.revision, SaturatingAdd(now, SESSION_TTL_SECS))
  }

  predicate Verifies(signing: SigningKey, token: Token, now: nat) {
    token.key == signing.key && token.apiKey == signing.apiKey && token.kr == signing.revision && now <= token.exp
  }

  /** `resolve_cookie`, on the tables this node has applied: read afresh on every call. */
  predicate ResolveCookie(t: Tables, apiKey: string, token: Option<Token>, now: nat) {
    && token.Some? && t.sessionKey.Some?
    && Derive(t.sessionKey.value, apiKey).Some?
    && Verifies(Derive(t.sessionKey.value, apiKey).value, token.value, now)
  }

  // ---- the signing key over a log ----

  ghost function KeyAt(log: seq<Payload>, k: nat): Option<SessionKey>
    requires k <= |log|
  {
    TablesAt(log, k).sessionKey
  }

  /** The record seen at `k` is the one seen at `j`, or a later one. */
  lemma {:induction false} KeySince(log: seq<Payload>, j: nat, k: nat)
    requires j <= k <= |log|
    ensures KeyAt(log, k) == KeyAt(log, j) || (KeyAt(log, k).Some? && KeyAt(log, k).value.revision > j)
    decreases k
  {
    if j < k {
      KeySince(log, j, k - 1);
      EntrySteps(log, k - 1);
    }
  }

  /** A key revision names one record, fleet-wide and forever. */
  lemma KeyRevisionNamesTheRecord(log: seq<Payload>, j: nat, k: nat)
    requires j <= |log| && k <= |log| && KeyAt(log, j).Some? && KeyAt(log, k).Some?
    requires KeyAt(log, j).value.revision == KeyAt(log, k).value.revision
    ensures KeyAt(log, j) == KeyAt(log, k)
  {
    RevisionsInLog(log, j);
    RevisionsInLog(log, k);
    if j <= k { KeySince(log, j, k); } else { KeySince(log, k, j); }
  }

  /** Key revisions only grow, and a key is never taken away. */
  lemma KeyRevisionGrows(log: seq<Payload>, j: nat, k: nat)
    requires j <= k <= |log| && KeyAt(log, j).Some?
    ensures KeyAt(log, k).Some? && KeyAt(log, j).value.revision <= KeyAt(log, k).value.revision
  {
    KeySince(log, j, k);
    RevisionsInLog(log, j);
  }

  lemma KeyAfter(t: Tables, request: ControlRequest, index: nat)
    requires Execute(t, request, index).Ok?
    ensures var after := Execute(t, request, index).value;
            after.sessionKey == t.sessionKey || (after.sessionKey.Some? && Usable(after.sessionKey.value.key))
  {
    assert Validate(request.op).Ok?;
    assert Mutate(t, request.op, index) == Execute(t, request, index);
  }

  /** Applied state never holds a key that does not derive: the branches that refuse every cookie
      or every login for an unusable key are not reached. */
  lemma {:induction false} StoredKeyIsUsable(log: seq<Payload>, k: nat)
    requires k <= |log|
    ensures KeyAt(log, k).Some? ==> Usable(KeyAt(log, k).value.key)
  {
    if k == 0 {
      assert StateAt(log, 0) == INITIAL;
    } else {
      StoredKeyIsUsable(log, k - 1);
      EntrySteps(log, k - 1);
      if TookEffect(log, k - 1) {
        TookEffectExecutes(log, k - 1);
        KeyAfter(TablesAt(log, k - 1), log[k - 1].request, k);
      }
    }
  }

  // ---- runs ----

  type NodeId = nat
  type LoginId = nat

  /** Where a login stands: about to read, about to commit a first key, or about to read again. */
  datatype Login = Reading | Committing | Rereading

  /** `held` is every API key the node has run under. */
  datatype Node = Node(apiKey: string, held: set<string>, applied: nat, logins: map<LoginId, Login>)

  /** A minted cookie, with the node, the applied position its record was read at, and the minting
      node's clock. */
  datatype Minted = Minted(token: Token, node: NodeId, at: nat, when: nat)

  datatype Fleet = Fleet(nodes: map<NodeId, Node>, log: seq<Payload>, minted: set<Minted>)

  datatype Step =
    | BeginLogin(node: NodeId, login: LoginId)
    | Read(node: NodeId, login: LoginId, now: nat)
    | CommitFirstKey(node: NodeId, login: LoginId, request: ControlRequest)
    | LoginFails(node: NodeId, login: LoginId)
    | Rotate(node: NodeId, request: ControlRequest)
    | OtherCommit(entry: Payload)
    | Apply(node: NodeId)
    | ChangeApiKey(node: NodeId, apiKey: string)

  /** What a login does with the record it reads, at either read. */
  ghost function ReadStep(f: Fleet, n: NodeId, l: LoginId, now: nat): Option<Fleet>
    requires n in f.nodes && l in f.nodes[n].logins
  {
    var node := f.nodes[n];
    if node.applied > |f.log| || node.logins[l].Committing? then None
    else
      var record := KeyAt(f.log, node.applied);
      if record.Some? then
        var signing :- Derive(record.value, node.apiKey);
        var done := node.(logins := node.logins - {l});
        Some(f.(nodes := f.nodes[n := done], minted := f.minted + {Minted(MintToken(signing, now), n, node.applied, now)}))
      else if node.logins[l].Reading? then Some(f.(nodes := f.nodes[n := node.(logins := node.logins[l := Committing])]))
      else Some(f.(nodes := f.nodes[n := node.(logins := node.logins - {l})]))
  }

  ghost function Next(f: Fleet, step: Step): Option<Fleet> {
    match step
    case BeginLogin(n, l) =>
      if n !in f.nodes || l in f.nodes[n].logins then None
      else Some(f.(nodes := f.nodes[n := f.nodes[n].(logins := f.nodes[n].logins[l := Reading])]))
    case Read(n, l, now) =>
      if n !in f.nodes || l !in f.nodes[n].logins then None else ReadStep(f, n, l, now)
    case CommitFirstKey(n, l, request) =>
      if n !in f.nodes || l !in f.nodes[n].logins || !f.nodes[n].logins[l].Committing? || !request.op.SessionKeyPut? then None
      else
        Some(f.(nodes := f.nodes[n := f.nodes[n].(logins := f.nodes[n].logins[l := Rereading])], log := f.log + [Normal(request)]))
    case LoginFails(n, l) =>
      if n !in f.nodes then None else Some(f.(nodes := f.nodes[n := f.nodes[n].(logins := f.nodes[n].logins - {l})]))
    case Rotate(n, request) =>
      if n !in f.nodes || !request.op.SessionKeyPut? then None else Some(f.(log := f.log + [Normal(request)]))
    case OtherCommit(entry) => Some(f.(log := f.log + [entry]))
    case Apply(n) =>
      if n !in f.nodes || f.nodes[n].applied >= |f.log| then None
      else Some(f.(nodes := f.nodes[n := f.nodes[n].(applied := f.nodes[n].applied + 1)]))
    case ChangeApiKey(n, key) =>
      // The key is set at start-up: logins in flight are lost, applied state is not.
      if n !in f.nodes then None
      else Some(f.(nodes := f.nodes[n := f.nodes[n].(apiKey := key, held := f.nodes[n].held + {key}, logins := map[])]))
  }

  ghost function Run(f: Fleet, steps: seq<Step>): Option<Fleet> {
    if steps == [] then Some(f)
    else
      var before :- Run(f, steps[..|steps| - 1]);
      Next(before, steps[|steps| - 1])
  }

  function Fresh(keys: map<NodeId, string>): Fleet {
    Fleet(map n | n in keys :: Node(keys[n], {keys[n]}, 0, map[]), [], {})
  }

  // ---- what every step keeps ----

  /** The last second of a session begun at `when`: eight hours later, as far as a u64 reaches. */
  ghost function LastsUntil(when: nat): nat {
    if when + 28_800 <= 0xFFFF_FFFF_FFFF_FFFF then when + 28_800 else 0xFFFF_FFFF_FFFF_FFFF
  }

  /** The cookie was minted from the record its own node had applied when it read, under an API key
      that node has run under. */
  ghost predicate MintedFromApplied(f: Fleet, m: Minted) {
    && m.node in f.nodes && m.at <= f.nodes[m.node].applied <= |f.log|
    && KeyAt(f.log, m.at).Some? && Usable(KeyAt(f.log, m.at).value.key)
    && m.token.key == KeyAt(f.log, m.at).value.key
    && m.token.kr == KeyAt(f.log, m.at).value.revision
    && m.token.apiKey in f.nodes[m.node].held
    && m.token.exp == LastsUntil(m.when)
  }

  ghost predicate Sound(f: Fleet) {
    && (forall n :: n in f.nodes ==> f.nodes[n].applied <= |f.log| && f.nodes[n].apiKey in f.nodes[n].held)
    && (forall m :: m in f.minted ==> MintedFromApplied(f, m))
  }

  /** The log only grows and nodes only advance. */
  ghost predicate Extends(f: Fleet, g: Fleet) {
    && f.log <= g.log && f.minted <= g.minted
    && (forall n :: n in f.nodes ==> n in g.nodes && f.nodes[n].applied <= g.nodes[n].applied && f.nodes[n].held <= g.nodes[n].held)
  }

  lemma KeyOfPrefix(log: seq<Payload>, longer: seq<Payload>, k: nat)
    requires log <= longer && k <= |log|
    ensures KeyAt(longer, k) == KeyAt(log, k)
  {
    assert longer == log + longer[|log|..];
    StateOfPrefix(log, longer[|log|..], k);
  }

  lemma MintedStays(f: Fleet, g: Fleet, m: Minted)
    requires Extends(f, g) && MintedFromApplied(f, m) && forall n :: n in g.nodes ==> g.nodes[n].applied <= |g.log|
    ensures MintedFromApplied(g, m)
  {
    KeyOfPrefix(f.log, g.log, m.at);
  }

  lemma StepExtends(f: Fleet, step: Step)
    requires Next(f, step).Some? && forall n :: n in f.nodes ==> f.nodes[n].applied <= |f.log|
    ensures Extends(f, Next(f, step).value)
    ensures var g := Next(f, step).value; forall n :: n in g.nodes ==> g.nodes[n].applied <= |g.log|
  {}

  lemma StepKeepsSound(f: Fleet, step: Step)
    requires Sound(f) && Next(f, step).Some?
    ensures Sound(Next(f, step).value)
  {
    var g := Next(f, step).value;
    StepExtends(f, step);
    forall m | m in g.minted ensures MintedFromApplied(g, m) {
      if m in f.minted { MintedStays(f, g, m); }
    }
  }

  lemma {:induction false} RunKeepsSound(f: Fleet, steps: seq<Step>)
    requires Sound(f) && Run(f, steps).Some?
    ensures Sound(Run(f, steps).value) && Extends(f, Run(f, steps).value)
  {
    if steps != [] {
      var front := steps[..|steps| - 1];
      RunKeepsSound(f, front);
      StepKeepsSound(Run(f, front).value, steps[|steps| - 1]);
      StepExtends(Run(f, front).value, steps[|steps| - 1]);
    }
  }

  // ---- theorems over every run ----

  /** Whether the node accepts the cookie now. */
  ghost predicate Accepts(f: Fleet, n: NodeId, token: Token, now: nat)
    requires n in f.nodes && f.nodes[n].applied <= |f.log|
  {
    ResolveCookie(TablesAt(f.log, f.nodes[n].applied), f.nodes[n].apiKey, Some(token), now)
  }

  /** Exactly when a node accepts a cookie minted anywhere in a run: it has applied the very record
      the cookie was minted from, runs the API key the cookie was signed under, and no more than eight
      hours have passed since the cookie was minted. */
  lemma AcceptedIff(keys: map<NodeId, string>, steps: seq<Step>, f: Fleet, m: Minted, n: NodeId, now: nat)
    requires Run(Fresh(keys), steps) == Some(f) && m in f.minted && n in f.nodes
    ensures m.node in f.nodes && m.at <= |f.log| && f.nodes[n].applied <= |f.log|
    ensures Accepts(f, n, m.token, now) <==>
            && KeyAt(f.log, f.nodes[n].applied) == KeyAt(f.log, m.at)
            && f.nodes[n].apiKey == m.token.apiKey
            && now <= LastsUntil(m.when)
  {
    RunKeepsSound(Fresh(keys), steps);
    assert MintedFromApplied(f, m);
    var mine := KeyAt(f.log, f.nodes[n].applied);
    if mine.Some? && mine.value.revision == m.token.kr {
      KeyRevisionNamesTheRecord(f.log, f.nodes[n].applied, m.at);
    }
  }

  /** Rotation revokes for good: once a node has applied a key at revision `r`, in every
      continuation of the run it refuses every cookie minted under an earlier revision, whoever
      minted it and whenever. */
  lemma RotationRevokesForGood(keys: map<NodeId, string>, steps: seq<Step>, f: Fleet, more: seq<Step>, g: Fleet, n: NodeId, token: Token, now: nat)
    requires Run(Fresh(keys), steps) == Some(f) && Run(f, more) == Some(g)
    requires n in f.nodes && f.nodes[n].applied <= |f.log|
    requires KeyAt(f.log, f.nodes[n].applied).Some? && token.kr < KeyAt(f.log, f.nodes[n].applied).value.revision
    ensures n in g.nodes && g.nodes[n].applied <= |g.log| && !Accepts(g, n, token, now)
  {
    RunKeepsSound(Fresh(keys), steps);
    RunKeepsSound(f, more);
    KeyOfPrefix(f.log, g.log, f.nodes[n].applied);
    KeyRevisionGrows(g.log, f.nodes[n].applied, g.nodes[n].applied);
  }

  /** A rotation that took effect cuts every cookie minted before it was applied: a node that has
      applied entry `i` refuses every cookie minted from a record read at or before `i`. */
  lemma RotationCutsEarlierCookies(keys: map<NodeId, string>, steps: seq<Step>, f: Fleet, i: nat, m: Minted, n: NodeId, now: nat)
    requires Run(Fresh(keys), steps) == Some(f) && m in f.minted && n in f.nodes
    requires i < |f.log| && TookEffect(f.log, i) && f.log[i].request.op.SessionKeyPut?
    requires m.at <= i < f.nodes[n].applied
    ensures f.nodes[n].applied <= |f.log| && !Accepts(f, n, m.token, now)
  {
    RunKeepsSound(Fresh(keys), steps);
    assert MintedFromApplied(f, m);
    TookEffectExecutes(f.log, i);
    RevisionsInLog(f.log, m.at);
    KeyRevisionGrows(f.log, i + 1, f.nodes[n].applied);
  }

  predicate SetsKey(step: Step, n: NodeId, key: string) {
    step == ChangeApiKey(n, key)
  }

  lemma {:induction false} KeyStaysOff(f: Fleet, steps: seq<Step>, n: NodeId, key: string)
    requires Run(f, steps).Some? && n in f.nodes && f.nodes[n].apiKey != key
    requires forall i :: 0 <= i < |steps| ==> !SetsKey(steps[i], n, key)
    ensures n in Run(f, steps).value.nodes && Run(f, steps).value.nodes[n].apiKey != key
  {
    if steps != [] { KeyStaysOff(f, steps[..|steps| - 1], n, key); }
  }

  /** The other revocation: from the moment a node runs another API key than the one a cookie was
      signed under, it refuses the cookie, and goes on refusing it in every continuation in which it
      is not given the old key back.  Nothing replicated is consulted. */
  lemma KeyChangeRevokes(keys: map<NodeId, string>, steps: seq<Step>, f: Fleet, more: seq<Step>, g: Fleet, n: NodeId, token: Token, now: nat)
    requires Run(Fresh(keys), steps) == Some(f) && Run(f, more) == Some(g)
    requires n in f.nodes && f.nodes[n].apiKey != token.apiKey
    requires forall i :: 0 <= i < |more| ==> !SetsKey(more[i], n, token.apiKey)
    ensures n in g.nodes && g.nodes[n].applied <= |g.log| && !Accepts(g, n, token, now)
  {
    RunKeepsSound(Fresh(keys), steps);
    RunKeepsSound(f, more);
    KeyStaysOff(f, more, n, token.apiKey);
  }

  /** What a login does at a read, in terms of the key the node has applied: with a key it mints one
      cookie, under that key and the node's API key, and ends; without one it goes on to commit a first
      key, or, if it already has, ends with nothing.  Nothing is committed and no other node moves. */
  lemma ReadMints(f: Fleet, n: NodeId, l: LoginId, now: nat, g: Fleet)
    requires Sound(f) && Next(f, Read(n, l, now)) == Some(g)
    ensures n in f.nodes && l in f.nodes[n].logins && f.nodes[n].applied <= |f.log|
    ensures g.log == f.log && g.nodes.Keys == f.nodes.Keys
    ensures forall p :: p in f.nodes && p != n ==> g.nodes[p] == f.nodes[p]
    ensures var record := KeyAt(f.log, f.nodes[n].applied);
            if record.Some? then
              && l !in g.nodes[n].logins
              && g.minted == f.minted + {Minted(Token(record.value.key, f.nodes[n].apiKey, record.value.revision, LastsUntil(now)),
                                                n, f.nodes[n].applied, now)}
            else
              && g.minted == f.minted
              && (f.nodes[n].logins[l] == Reading ==> l in g.nodes[n].logins && g.nodes[n].logins[l] == Committing)
              && (f.nodes[n].logins[l] != Reading ==> l !in g.nodes[n].logins)
  {}

  /** A key is committed by a rotation, or by a login that read none; and by a login at most once. */
  lemma FirstKeyIsCommittedOnce(f: Fleet, n: NodeId, l: LoginId, request: ControlRequest, g: Fleet)
    requires Sound(f) && Next(f, CommitFirstKey(n, l, request)) == Some(g)
    ensures g.log == f.log + [Normal(request)] && request.op.SessionKeyPut? && g.minted == f.minted
    ensures n in g.nodes && l in g.nodes[n].logins
    ensures forall again: ControlRequest :: Next(g, CommitFirstKey(n, l, again)).None?
  {}

  /** Every cookie is minted from a record that the minting node had itself applied. */
  lemma LoginsMintFromAppliedState(keys: map<NodeId, string>, steps: seq<Step>, f: Fleet, m: Minted)
    requires Run(Fresh(keys), steps) == Some(f) && m in f.minted
    ensures MintedFromApplied(f, m)
  {
    RunKeepsSound(Fresh(keys), steps);
  }
}
