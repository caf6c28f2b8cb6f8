/** The forward-secure aggregate MAC (FssAgg MAC) chain: a secret that is
    hashed once per message, and one aggregate digest folding the HMAC of every
    message under the secret current when it was absorbed. */
module FssAgg {
  import opened Crypto
  import opened Js

  /** A point of the chain: the current secret and the aggregate MAC. */
  datatype ChainState = ChainState(secret: string, mac: string)

  /** Absorbing one message: the HMAC of the message under the current secret
      is prepended to the aggregate and the result hashed; then the secret is
      replaced by its hash. */
  function Step(h: Hashes, st: ChainState, message: string): ChainState
  {
    var individualMac := h.hmacSha256(st.secret, message);
    ChainState(h.sha256(st.secret), h.sha256(individualMac + st.mac))
  }

  /** The secret after `k` key updates. */
  function Evolve(h: Hashes, secret: string, k: nat): string
  {
    if k == 0 then secret else h.sha256(Evolve(h, secret, k - 1))
  }

  /** The chain state after absorbing `messages`, in order, from `st`. */
  function Replay(h: Hashes, st: ChainState, messages: seq<string>): ChainState
    decreases |messages|
  {
    if messages == [] then st
    else Step(h, Replay(h, st, messages[..|messages| - 1]), messages[|messages| - 1])
  }

  /** The aggregate a replay starts from: the optional starting MAC when one is
      given, the empty string otherwise (JavaScript's `startingMAC ? startingMAC : ''`,
      under which an empty starting MAC is falsy and also yields ''). */
  function StartingMac(startingMac: Option<string>): (r: string)
    ensures startingMac.Some? ==> r == startingMac.value
    ensures startingMac.None? ==> r == ""
  {
    if startingMac.Some? && startingMac.value != "" then startingMac.value else ""
  }

  /** `mac` is the aggregate obtained by replaying `messages` from
      `initialSecret` and the starting MAC. */
  predicate Verifies(h: Hashes, mac: string, messages: seq<string>, initialSecret: string,
                     startingMac: Option<string>)
  {
    Replay(h, ChainState(initialSecret, StartingMac(startingMac)), messages).mac == mac
  }

  // ----- properties of the key evolution and of the replay -----

  /** Evolving `a` steps and then `b` steps is evolving `a + b` steps. */
  lemma {:induction false} EvolveCompose(h: Hashes, secret: string, a: nat, b: nat)
    ensures Evolve(h, secret, 0) == secret
    ensures Evolve(h, secret, a + b) == Evolve(h, Evolve(h, secret, a), b)
  {
    if b > 0 {
      EvolveCompose(h, secret, a, b - 1);
    }
  }

  /** After absorbing `k` messages the secret is the starting secret evolved
      `k` times, whatever the messages and the aggregate were. */
  lemma {:induction false} ReplaySecret(h: Hashes, st: ChainState, messages: seq<string>)
    ensures Replay(h, st, messages).secret == Evolve(h, st.secret, |messages|)
    decreases |messages|
  {
    if messages != [] {
      ReplaySecret(h, st, messages[..|messages| - 1]);
    }
  }

  /** Replaying `a + b` is replaying `a` and then continuing with `b`. */
  lemma {:induction false} ReplayAppend(h: Hashes, st: ChainState, a: seq<string>, b: seq<string>)
    ensures Replay(h, st, a + b) == Replay(h, Replay(h, st, a), b)
    decreases |b|
  {
    if b == [] {
      assert a + b == a;
    } else {
      var b' := b[..|b| - 1];
      assert (a + b)[..|a + b| - 1] == a + b';
      assert (a + b)[|a + b| - 1] == b[|b| - 1];
      ReplayAppend(h, st, a, b');
    }
  }

  /** An empty message list verifies exactly the starting MAC: the given one,
      or the empty string when none is given. */
  lemma VerifyEmpty(h: Hashes, mac: string, initialSecret: string, startingMac: Option<string>)
    ensures startingMac.Some? ==> (Verifies(h, mac, [], initialSecret, startingMac) <==> mac == startingMac.value)
    ensures startingMac.None? ==> (Verifies(h, mac, [], initialSecret, startingMac) <==> mac == "")
  {
  }

  /** Suffix verification: the aggregate over `a + b` is verified for `b` alone
      from the secret evolved `|a|` times and the aggregate reached after `a`. */
  lemma {:induction false} VerifySuffix(h: Hashes, st: ChainState, a: seq<string>, b: seq<string>)
    ensures Verifies(h, Replay(h, st, a + b).mac, b, Evolve(h, st.secret, |a|),
                     Some(Replay(h, st, a).mac))
  {
    ReplayAppend(h, st, a, b);
    ReplaySecret(h, st, a);
  }

  // ----- the stand-alone functions -----

  /** `verifyFssAggMAC(MAC, messages, initialSecret, startingMAC)`: replays the
      chain over `messages` and compares the final aggregate with `mac`. */
  method VerifyFssAggMAC(h: Hashes, mac: string, messages: seq<string>, initialSecret: string,
                         startingMac: Option<string>)
    returns (valid: bool)
    ensures valid == Verifies(h, mac, messages, initialSecret, startingMac)
  {
    var currentMac := StartingMac(startingMac);
    var secret := initialSecret;
    for index := 0 to |messages|
      invariant ChainState(secret, currentMac)
             == Replay(h, ChainState(initialSecret, StartingMac(startingMac)), messages[..index])
    {
      var msg := messages[index];
      assert messages[..index + 1][..index] == messages[..index];
      var individualMac := h.hmacSha256(secret, msg);
      currentMac := h.sha256(individualMac + currentMac);
      secret := h.sha256(secret);
    }
    assert messages[..|messages|] == messages;
    if currentMac == mac {
      valid := true;
    } else {
      valid := false;
    }
  }

  /** `evolveKey(initialSecret, numEvolvements)`: the key after
      `numEvolvements` updates; a negative count runs the loop zero times. */
  method EvolveKey(h: Hashes, initialSecret: string, numEvolvements: int) returns (secret: string)
    ensures secret == Evolve(h, initialSecret, if numEvolvements < 0 then 0 else numEvolvements)
  {
    secret := initialSecret;
    var index := 0;
    while index < numEvolvements
      invariant 0 <= index && (index <= numEvolvements || index == 0)
      invariant secret == Evolve(h, initialSecret, index)
    {
      secret := h.sha256(secret);
      index := index + 1;
    }
  }

  // ----- the stateful object -----

  /** `class FssAggMAC`. The ghost fields record the initial secret and every
      message absorbed so far; `Valid` ties the real fields to a replay of them. */
  class FssAggMAC {
    const h: Hashes
    var currentSecret: string
    var aggregateMAC: string
    var numEvolvements: nat
    ghost const initialSecret: string
    ghost var messages: seq<string>

    ghost predicate Valid()
      reads this
    {
      && ChainState(currentSecret, aggregateMAC) == Replay(h, ChainState(initialSecret, ""), messages)
      && numEvolvements == |messages|
      && currentSecret == Evolve(h, initialSecret, numEvolvements)
    }

    /** `new FssAggMAC(secretKey)`: secret `secretKey`, empty aggregate, no evolvements. */
    constructor (h: Hashes, secretKey: string)
      ensures Valid()
      ensures this.h == h && initialSecret == secretKey && messages == []
      ensures currentSecret == secretKey && aggregateMAC == "" && numEvolvements == 0
    {
      this.h := h;
      currentSecret := secretKey;
      aggregateMAC := "";
      numEvolvements := 0;
      initialSecret := secretKey;
      messages := [];
    }

    /** `aSig(message)`: folds the HMAC of `message` under the secret held before
        the call into the aggregate, then evolves the secret once. */
    method ASig(message: string)
      requires Valid()
      modifies this
      ensures Valid()
      ensures messages == old(messages) + [message]
      ensures aggregateMAC == h.sha256(h.hmacSha256(old(currentSecret), message) + old(aggregateMAC))
      ensures currentSecret == h.sha256(old(currentSecret))
      ensures numEvolvements == old(numEvolvements) + 1
    {
      var individualMac := h.hmacSha256(currentSecret, message);
      aggregateMAC := h.sha256(individualMac + aggregateMAC);
      // Key update
      currentSecret := h.sha256(currentSecret);
      numEvolvements := numEvolvements + 1;
      messages := messages + [message];
      assert messages[..|messages| - 1] == old(messages);
    }

    /** `getMAC()`: the aggregate, which verifies every message absorbed since
        construction against the initial secret. */
    function GetMAC(): (mac: string)
      reads this
      requires Valid()
      ensures mac == Replay(h, ChainState(initialSecret, ""), messages).mac
      ensures Verifies(h, mac, messages, initialSecret, None)
    {
      aggregateMAC
    }

    /** `getNumEvolvements()`: the number of messages absorbed, which is also the
        number of times the initial secret has been evolved. */
    function GetNumEvolvements(): (n: nat)
      reads this
      requires Valid()
      ensures n == |messages|
      ensures currentSecret == Evolve(h, initialSecret, n)
    {
      numEvolvements
    }
  }

  // ----- object and replay agree -----

  /** Completeness: an object built with `sk0` that absorbs `messages` with
      `aSig` produces a MAC that `verifyFssAggMAC` accepts for those messages
      and `sk0`, and its counter equals the number of messages. */
  method SignThenVerify(h: Hashes, sk0: string, messages: seq<string>)
    returns (valid: bool, evolvements: nat)
    ensures valid
    ensures evolvements == |messages|
  {
    var f := new FssAggMAC(h, sk0);
    for i := 0 to |messages|
      invariant f.Valid() && f.h == h && f.initialSecret == sk0
      invariant f.messages == messages[..i]
    {
      f.ASig(messages[i]);
      assert messages[..i + 1] == messages[..i] + [messages[i]];
    }
    assert messages[..|messages|] == messages;
    valid := VerifyFssAggMAC(h, f.GetMAC(), messages, sk0, None);
    evolvements := f.GetNumEvolvements();
  }

  /** Suffix verification on the object: after absorbing `a` and then `b`, the
      final MAC verifies `b` alone from `evolveKey(sk0, |a|)` and the MAC the
      object held after `a`. */
  method SignThenVerifySuffix(h: Hashes, sk0: string, a: seq<string>, b: seq<string>)
    returns (valid: bool)
    ensures valid
  {
    var f := new FssAggMAC(h, sk0);
    for i := 0 to |a|
      invariant f.Valid() && f.h == h && f.initialSecret == sk0
      invariant f.messages == a[..i]
    {
      f.ASig(a[i]);
      assert a[..i + 1] == a[..i] + [a[i]];
    }
    assert a[..|a|] == a;
    var macAfterA := f.GetMAC();
    for i := 0 to |b|
      invariant f.Valid() && f.h == h && f.initialSecret == sk0
      invariant f.messages == a + b[..i]
    {
      f.ASig(b[i]);
      assert b[..i + 1] == b[..i] + [b[i]];
    }
    assert b[..|b|] == b;
    var secretAfterA := EvolveKey(h, sk0, |a|);
    VerifySuffix(h, ChainState(sk0, ""), a, b);
    valid := VerifyFssAggMAC(h, f.GetMAC(), b, secretAfterA, Some(macAfterA));
  }
}
