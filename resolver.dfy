/**
 * Resolving references inside a decoded Vault secret: every top-level value that
 * is a reference is replaced, link by link, by the named field of the secret it
 * points at, until it is no longer a reference.
 *
 * The Vault client's readSecret is an oracle: a total function from (path,
 * version) to a decoded secret or an error. The chain that a value starts is
 * specified by Follow; the imperative resolver is proved against it.
 */
module Resolver {
  import opened Symlink

  type Error = string

  /** One readSecret request. */
  datatype Call = Call(path: string, version: string)

  /** What readSecret answers: the fields of the secret, or an error. */
  datatype Fetch = Fetched(fields: map<string, Value>) | ReadFailed(err: Error)

  /** readSecret as an oracle: the answer for each request it is asked, given by a
      table of answers and the answer to every request the table does not list. */
  datatype Backend = Backend(answers: map<Call, Fetch>, otherwise: Fetch)
  {
    function Read(path: string, version: string): (f: Fetch)
    {
      if Call(path, version) in answers then answers[Call(path, version)] else otherwise
    }
  }

  /** The decoder of references. A client always decodes with Extract; the lemmas
      about chains hold for every decoder and name Extract only where they need
      its captures. */
  type Decoder = string -> Parts

  /** The request made for a decoded reference: its Path and Version captures. */
  function CallFor(parts: Parts): (c: Call)
  {
    Call(parts.path, parts.version)
  }

  /** A Go map lookup: a missing field reads as nil. */
  function Field(fields: map<string, Value>, name: string): (v: Value)
  {
    if name in fields then fields[name] else Nil
  }

  /** How the chain of one value stops: at a value that is no reference, at a failed
      read (with the reference being resolved when it failed), or, in this model only,
      when the fuel is used up (with the reference not yet resolved). */
  datatype End = Done(value: Value) | FetchError(err: Error, last: Value) | Exhausted(last: Value)
  {
    /** The value left in data[key] once the chain stops. */
    function Written(): (v: Value)
    {
      match this
      case Done(v) => v
      case FetchError(_, v) => v
      case Exhausted(v) => v
    }
  }

  /** The readSecret requests of a chain, in order, and how it stops. */
  datatype Chain = Chain(calls: seq<Call>, end: End)

  /** The chain that starts at v, following at most `fuel` references. */
  function Follow(v: Value, read: Backend, decode: Decoder, fuel: nat): (c: Chain)
    decreases fuel, 0
  {
    if !IsSymlink(v) then Chain([], Done(v))
    else if fuel == 0 then Chain([], Exhausted(v))
    else Deref(v, read, decode, fuel - 1)
  }

  /** The chain of the reference v: the read for its Path and Version, then the chain
      of the named field of what was read, with `fuel` further references. */
  function Deref(v: Value, read: Backend, decode: Decoder, fuel: nat): (c: Chain)
    requires IsSymlink(v)
    decreases fuel, 1
  {
    var parts := decode(v.s);
    match StepOf(read.Read(parts.path, parts.version), parts.secret)
    case Broken(err) => Chain([CallFor(parts)], FetchError(err, v))
    case Moved(next) =>
      var rest := Follow(next, read, decode, fuel);
      Chain([CallFor(parts)] + rest.calls, rest.end)
  }

  /** One link of a chain: the read for the reference's Path and Version, then the
      chain of the named field with one reference less. */
  lemma FollowStep(v: Value, read: Backend, decode: Decoder, fuel: nat)
    requires IsSymlink(v) && fuel > 0
    ensures var parts := decode(v.s);
      match StepOf(read.Read(parts.path, parts.version), parts.secret)
      case Broken(err) => Follow(v, read, decode, fuel) == Chain([CallFor(parts)], FetchError(err, v))
      case Moved(next) =>
        var rest := Follow(next, read, decode, fuel - 1);
        Follow(v, read, decode, fuel) == Chain([CallFor(parts)] + rest.calls, rest.end)
  {
    assert Follow(v, read, decode, fuel) == Deref(v, read, decode, fuel - 1);
  }

  /** A chain makes at most `fuel` reads; one that is done leaves a value that is no
      reference, any other leaves the reference it stopped at. */
  lemma {:induction false} FollowEnds(v: Value, read: Backend, decode: Decoder, fuel: nat)
    ensures var c := Follow(v, read, decode, fuel);
      |c.calls| <= fuel &&
      (c.end.Done? ==> !IsSymlink(c.end.value)) &&
      (!c.end.Done? ==> IsSymlink(c.end.Written()))
    decreases fuel
  {
    if IsSymlink(v) && fuel > 0 {
      var parts := decode(v.s);
      FollowStep(v, read, decode, fuel);
      match StepOf(read.Read(parts.path, parts.version), parts.secret)
      case Broken(_) =>
      case Moved(next) =>
        FollowEnds(next, read, decode, fuel - 1);
    }
  }

  /** A value that is no reference is its own chain: kept as it is, with no read. */
  lemma FollowPlainValue(v: Value, read: Backend, decode: Decoder, fuel: nat)
    requires !IsSymlink(v)
    ensures Follow(v, read, decode, fuel) == Chain([], Done(v))
  {
  }

  /** The first read of a chain is for the Path and Version of the reference it starts at;
      a chain that fails ends with the read that failed; one that runs out of fuel made
      exactly `fuel` reads. */
  lemma {:induction false} FollowCalls(v: Value, read: Backend, decode: Decoder, fuel: nat)
    ensures var c := Follow(v, read, decode, fuel);
      (IsSymlink(v) && fuel > 0 ==> c.calls != [] && c.calls[0] == CallFor(decode(v.s))) &&
      (c.end.FetchError? ==>
         (c.calls != [] &&
          read.Read(c.calls[|c.calls| - 1].path, c.calls[|c.calls| - 1].version) == ReadFailed(c.end.err))) &&
      (c.end.Exhausted? ==> |c.calls| == fuel)
    decreases fuel
  {
    if IsSymlink(v) && fuel > 0 {
      var parts := decode(v.s);
      FollowStep(v, read, decode, fuel);
      match StepOf(read.Read(parts.path, parts.version), parts.secret)
      case Broken(_) =>
      case Moved(next) =>
        FollowCalls(next, read, decode, fuel - 1);
    }
  }

  /** Once a chain stops for a reason other than fuel, more fuel changes nothing:
      the fuel bound is invisible on every chain that the unbounded loop finishes. */
  lemma {:induction false} FollowFuelMonotone(v: Value, read: Backend, decode: Decoder, fuel: nat, more: nat)
    requires fuel <= more && !Follow(v, read, decode, fuel).end.Exhausted?
    ensures Follow(v, read, decode, more) == Follow(v, read, decode, fuel)
    decreases fuel
  {
    if IsSymlink(v) && fuel > 0 {
      var parts := decode(v.s);
      FollowStep(v, read, decode, fuel);
      FollowStep(v, read, decode, more);
      match StepOf(read.Read(parts.path, parts.version), parts.secret)
      case Broken(_) =>
      case Moved(next) =>
        FollowFuelMonotone(next, read, decode, fuel - 1, more - 1);
    }
  }

  /** A chain is followed link by link: running out of fuel at u and then following
      u is the same as following v with the fuel of both runs. */
  lemma {:induction false} FollowSplit(v: Value, read: Backend, decode: Decoder, fuel: nat, more: nat)
    requires Follow(v, read, decode, fuel).end.Exhausted?
    ensures var first := Follow(v, read, decode, fuel);
            var rest := Follow(first.end.last, read, decode, more);
            Follow(v, read, decode, fuel + more) == Chain(first.calls + rest.calls, rest.end)
    decreases fuel
  {
    if fuel > 0 {
      var parts := decode(v.s);
      FollowStep(v, read, decode, fuel);
      FollowStep(v, read, decode, fuel + more);
      match StepOf(read.Read(parts.path, parts.version), parts.secret)
      case Broken(_) =>
      case Moved(next) =>
        FollowSplit(next, read, decode, fuel - 1, more);
        assert fuel + more - 1 == (fuel - 1) + more;
    }
  }

  /** The step of the inner loop's invariant. When the reads made so far and the chain of
      the reference v make up the whole chain, a failed read ends the whole chain right
      after its own read, and otherwise the same holds one link further on. */
  lemma ChainAdvance(whole: Chain, done: seq<Call>, v: Value, read: Backend, decode: Decoder, fuel: nat)
    requires IsSymlink(v) && fuel > 0
    requires whole == Chain(done + Follow(v, read, decode, fuel).calls, Follow(v, read, decode, fuel).end)
    ensures var parts := decode(v.s);
      match StepOf(read.Read(parts.path, parts.version), parts.secret)
      case Broken(err) => whole == Chain(done + [CallFor(parts)], FetchError(err, v))
      case Moved(next) =>
        var rest := Follow(next, read, decode, fuel - 1);
        whole == Chain((done + [CallFor(parts)]) + rest.calls, rest.end)
  {
    var parts := decode(v.s);
    FollowStep(v, read, decode, fuel);
    match StepOf(read.Read(parts.path, parts.version), parts.secret)
    case Broken(_) =>
    case Moved(next) =>
      var rest := Follow(next, read, decode, fuel - 1);
      assert done + ([CallFor(parts)] + rest.calls) == (done + [CallFor(parts)]) + rest.calls;
  }

  /** A field missing from the fetched secret resolves to nil, after one read and without error. */
  lemma MissingFieldIsNil(v: Value, read: Backend, decode: Decoder, fuel: nat, fields: map<string, Value>)
    requires IsSymlink(v) && fuel > 0
    requires read.Read(decode(v.s).path, decode(v.s).version) == Fetched(fields)
    requires decode(v.s).secret !in fields
    ensures Follow(v, read, decode, fuel) == Chain([CallFor(decode(v.s))], Done(Nil))
  {
    FollowStep(v, read, decode, fuel);
    assert Field(fields, decode(v.s).secret) == Nil;
  }

  /** A reference that the pattern does not match is still followed: every capture
      reads as "", so the read is for the empty path and version, and the field
      taken is the one named "". */
  lemma UnmatchedReference(v: Value, read: Backend, fuel: nat)
    requires IsSymlink(v) && Extract(v.s).secret == "" && fuel > 0
    ensures var c := Follow(v, read, Extract, fuel);
      match read.Read("", "")
      case ReadFailed(err) => c == Chain([Call("", "")], FetchError(err, v))
      case Fetched(fields) =>
        var rest := Follow(Field(fields, ""), read, Extract, fuel - 1);
        c == Chain([Call("", "")] + rest.calls, rest.end)
  {
    assert Extract(v.s) == Parts("", "", "");
    FollowStep(v, read, Extract, fuel);
  }

  /** The reference "vault://" + path + "#" + secret is followed by one read of
      (path, "") and then by the chain of the named field. */
  lemma FollowLink(path: string, secret: string, read: Backend, fuel: nat, fields: map<string, Value>)
    requires NoNewline(path) && secret != "" && IsWord(secret)
    requires read.Read(path, "") == Fetched(fields) && fuel >= 1
    ensures var rest := Follow(Field(fields, secret), read, Extract, fuel - 1);
            Follow(Str(Prefix + path + "#" + secret), read, Extract, fuel) == Chain([Call(path, "")] + rest.calls, rest.end)
  {
    var s := Prefix + path + "#" + secret;
    ExtractWithoutVersion(path, secret);
    SymlinkIsPrefixedString(Str(s));
    FollowStep(Str(s), read, Extract, fuel);
  }

  /** A chain of two references: the secret at p1 holds, in field f1, a reference to
      field f2 of the secret at p2, which holds a plain value. Two reads are made,
      p1 and then p2, and the reference resolves to that value. */
  lemma TwoLinkChain(p1: string, f1: string, p2: string, f2: string, value: Value, read: Backend, fuel: nat)
    requires NoNewline(p1) && f1 != "" && IsWord(f1)
    requires NoNewline(p2) && f2 != "" && IsWord(f2)
    requires !IsSymlink(value)
    requires read.Read(p1, "") == Fetched(map[f1 := Str(Prefix + p2 + "#" + f2)])
    requires read.Read(p2, "") == Fetched(map[f2 := value])
    requires fuel >= 2
    ensures Follow(Str(Prefix + p1 + "#" + f1), read, Extract, fuel)
         == Chain([Call(p1, ""), Call(p2, "")], Done(value))
  {
    var inner := map[f2 := value];
    assert Field(inner, f2) == value;
    FollowLink(p2, f2, read, fuel - 1, inner);
    FollowPlainValue(value, read, Extract, fuel - 2);
    var second := Follow(Str(Prefix + p2 + "#" + f2), read, Extract, fuel - 1);
    assert second == Chain([Call(p2, "")], Done(value));
    var outer := map[f1 := Str(Prefix + p2 + "#" + f2)];
    assert Field(outer, f1) == Str(Prefix + p2 + "#" + f2);
    FollowLink(p1, f1, read, fuel, outer);
    assert [Call(p1, "")] + second.calls == [Call(p1, ""), Call(p2, "")];
  }

  // ---------------------------------------------------------------------------
  // The whole map

  ghost predicate Distinct(keys: seq<string>)
  {
    forall a, b :: 0 <= a < b < |keys| ==> keys[a] != keys[b]
  }

  /** The keys of `order`, as a set. */
  ghost function Seen(order: seq<string>): set<string>
    decreases |order|
  {
    if order == [] then {} else Seen(order[..|order| - 1]) + {order[|order| - 1]}
  }

  /** `order` lists keys of `entries`, each at most once. */
  ghost predicate Fresh(entries: map<string, Value>, order: seq<string>)
    decreases |order|
  {
    order == [] ||
    var n := |order| - 1;
    Fresh(entries, order[..n]) && order[n] in entries && order[n] !in Seen(order[..n])
  }

  /** The state of resolveSymlink after visiting some keys: the map, the reads made,
      and what it would report if it returned now. */
  datatype Run = Run(entries: map<string, Value>, calls: seq<Call>, outcome: Outcome)

  /** resolveSymlink visiting the keys of `order` one after the other: each key's value
      is followed and what its chain leaves is written back; the first chain that does
      not end at a plain value stops the run, and the keys after it are not visited. */
  ghost function RunOf(entries: map<string, Value>, order: seq<string>,
                       read: Backend, decode: Decoder, fuel: nat): (run: Run)
    decreases |order|
  {
    if order == [] then Run(entries, [], Resolved)
    else
      var n := |order| - 1;
      var prev := RunOf(entries, order[..n], read, decode, fuel);
      if !prev.outcome.Resolved? || order[n] !in prev.entries then prev
      else
        var c := Follow(prev.entries[order[n]], read, decode, fuel);
        Run(prev.entries[order[n] := c.end.Written()], prev.calls + c.calls, OutcomeOf(c.end))
  }

  lemma {:induction false} SeenIsElements(order: seq<string>)
    ensures forall k :: k in Seen(order) <==> k in order
    decreases |order|
  {
    if order != [] {
      var n := |order| - 1;
      SeenIsElements(order[..n]);
      assert order == order[..n] + [order[n]];
    }
  }

  /** A visit order is fresh exactly when its keys are distinct keys of the map. */
  lemma {:induction false} FreshIsDistinctKeys(entries: map<string, Value>, order: seq<string>)
    ensures Fresh(entries, order) <==> Distinct(order) && forall k :: k in order ==> k in entries
    decreases |order|
  {
    if order != [] {
      var n := |order| - 1;
      FreshIsDistinctKeys(entries, order[..n]);
      SeenIsElements(order[..n]);
      assert order == order[..n] + [order[n]];
      if Distinct(order) && forall k :: k in order ==> k in entries {
        assert order[n] in order;
        forall k | k in order[..n] ensures k in entries {
          var t :| 0 <= t < n && order[..n][t] == k;
          assert order[t] == k;
        }
      }
    }
  }

  /** Visiting one more key, one not seen yet, keeps the order fresh. */
  lemma VisitKey(entries: map<string, Value>, order: seq<string>, remaining: set<string>, key: string)
    requires Fresh(entries, order) && remaining == entries.Keys - Seen(order) && key in remaining
    ensures Fresh(entries, order + [key]) && remaining - {key} == entries.Keys - Seen(order + [key])
    ensures (order + [key])[..|order|] == order
  {
    var next := order + [key];
    assert next[..|order|] == order;
    assert Seen(next) == Seen(order) + {key};
  }

  /** The reads of a run so far, then the reads of one more chain. Sequence
      associativity, stated as a lemma only so that the loops of ResolveKey and
      ResolveSymlink can use it for exactly these terms, which keeps their proofs cheap. */
  lemma ReadsAppend(before: seq<Call>, made: seq<Call>, more: seq<Call>)
    ensures (before + made) + more == before + (made + more)
  {
  }

  /** One more key, visited while the run is still resolving: its chain is followed
      from the value the key holds now, and the run continues or stops with it. */
  lemma RunStep(entries: map<string, Value>, order: seq<string>, key: string,
                read: Backend, decode: Decoder, fuel: nat)
    requires RunOf(entries, order, read, decode, fuel).outcome.Resolved?
    requires key in RunOf(entries, order, read, decode, fuel).entries
    ensures var prev := RunOf(entries, order, read, decode, fuel);
      var c := Follow(prev.entries[key], read, decode, fuel);
      RunOf(entries, order + [key], read, decode, fuel)
        == Run(prev.entries[key := c.end.Written()], prev.calls + c.calls, OutcomeOf(c.end))
  {
    assert (order + [key])[..|order|] == order;
  }

  /** A run that stopped stays stopped: once a chain fails, no key is visited and
      no read is made any more. */
  lemma {:induction false} RunStopsAtFailure(entries: map<string, Value>, order: seq<string>, more: seq<string>,
                                             read: Backend, decode: Decoder, fuel: nat)
    requires !RunOf(entries, order, read, decode, fuel).outcome.Resolved?
    ensures RunOf(entries, order + more, read, decode, fuel) == RunOf(entries, order, read, decode, fuel)
    decreases |more|
  {
    if more != [] {
      var n := |more| - 1;
      RunStopsAtFailure(entries, order, more[..n], read, decode, fuel);
      assert (order + more)[..|order + more| - 1] == order + more[..n];
    } else {
      assert order + more == order;
    }
  }

  /** A run keeps the keys of the map. */
  lemma {:induction false} RunKeepsKeys(entries: map<string, Value>, order: seq<string>,
                                        read: Backend, decode: Decoder, fuel: nat)
    ensures RunOf(entries, order, read, decode, fuel).entries.Keys == entries.Keys
    decreases |order|
  {
    if order != [] {
      RunKeepsKeys(entries, order[..|order| - 1], read, decode, fuel);
    }
  }

  /** A key not visited keeps its value. */
  lemma {:induction false} RunKeepsUnvisited(entries: map<string, Value>, order: seq<string>, key: string,
                                             read: Backend, decode: Decoder, fuel: nat)
    requires key in entries && key !in Seen(order)
    ensures key in RunOf(entries, order, read, decode, fuel).entries
    ensures RunOf(entries, order, read, decode, fuel).entries[key] == entries[key]
    decreases |order|
  {
    if order != [] {
      RunKeepsUnvisited(entries, order[..|order| - 1], key, read, decode, fuel);
    }
  }

  /** A value that is no reference is kept as it is, visited or not. */
  lemma {:induction false} RunKeepsPlainValues(entries: map<string, Value>, order: seq<string>, key: string,
                                               read: Backend, decode: Decoder, fuel: nat)
    requires key in entries && !IsSymlink(entries[key])
    ensures key in RunOf(entries, order, read, decode, fuel).entries
    ensures RunOf(entries, order, read, decode, fuel).entries[key] == entries[key]
    decreases |order|
  {
    if order != [] {
      var n := |order| - 1;
      RunKeepsPlainValues(entries, order[..n], key, read, decode, fuel);
      var prev := RunOf(entries, order[..n], read, decode, fuel);
      if prev.outcome.Resolved? && order[n] in prev.entries && order[n] == key {
        FollowPlainValue(prev.entries[key], read, decode, fuel);
      }
    }
  }

  /** While a run resolves, every key it has visited holds a value that is no reference. */
  lemma {:induction false} RunResolvesVisited(entries: map<string, Value>, order: seq<string>,
                                              read: Backend, decode: Decoder, fuel: nat)
    requires RunOf(entries, order, read, decode, fuel).outcome.Resolved?
    ensures var after := RunOf(entries, order, read, decode, fuel).entries;
      forall k :: k in Seen(order) && k in after ==> !IsSymlink(after[k])
    decreases |order|
  {
    if order != [] {
      var n := |order| - 1;
      var prev := RunOf(entries, order[..n], read, decode, fuel);
      if prev.outcome.Resolved? {
        RunResolvesVisited(entries, order[..n], read, decode, fuel);
        if order[n] in prev.entries {
          FollowEnds(prev.entries[order[n]], read, decode, fuel);
        }
      }
    }
  }

  /** While a run resolves, every key it has visited holds the end of the chain of its
      own original value: what a key ends with does not depend on the other keys. */
  lemma {:induction false} RunValues(entries: map<string, Value>, order: seq<string>,
                                     read: Backend, decode: Decoder, fuel: nat)
    requires Fresh(entries, order) && RunOf(entries, order, read, decode, fuel).outcome.Resolved?
    ensures var after := RunOf(entries, order, read, decode, fuel).entries;
      forall k :: k in Seen(order) ==>
        k in entries && k in after && after[k] == Follow(entries[k], read, decode, fuel).end.Written()
    decreases |order|
  {
    if order != [] {
      var n := |order| - 1;
      RunValues(entries, order[..n], read, decode, fuel);
      RunKeepsKeys(entries, order[..n], read, decode, fuel);
      RunKeepsUnvisited(entries, order[..n], order[n], read, decode, fuel);
    }
  }

  /** Go visits the keys in any order, and every order that resolves the whole map
      leaves the same values. */
  lemma OrderIndependent(entries: map<string, Value>, first: seq<string>, second: seq<string>,
                         read: Backend, decode: Decoder, fuel: nat)
    requires Fresh(entries, first) && entries.Keys <= Seen(first)
    requires Fresh(entries, second) && entries.Keys <= Seen(second)
    requires RunOf(entries, first, read, decode, fuel).outcome.Resolved?
    requires RunOf(entries, second, read, decode, fuel).outcome.Resolved?
    ensures RunOf(entries, first, read, decode, fuel).entries == RunOf(entries, second, read, decode, fuel).entries
  {
    RunValues(entries, first, read, decode, fuel);
    RunValues(entries, second, read, decode, fuel);
    RunKeepsKeys(entries, first, read, decode, fuel);
    RunKeepsKeys(entries, second, read, decode, fuel);
  }

  /** A run over every key of the map that resolves leaves no reference behind. */
  lemma NoneLeft(entries: map<string, Value>, order: seq<string>, read: Backend, decode: Decoder, fuel: nat)
    requires entries.Keys <= Seen(order)
    requires RunOf(entries, order, read, decode, fuel).outcome.Resolved?
    ensures var after := RunOf(entries, order, read, decode, fuel).entries;
      forall k :: k in after ==> !IsSymlink(after[k])
  {
    RunKeepsKeys(entries, order, read, decode, fuel);
    RunResolvesVisited(entries, order, read, decode, fuel);
  }

  /** The result of one link: the named field of the secret that was read, or the
      error of the read. */
  datatype Link = Moved(next: Value) | Broken(err: Error)

  /** The link the loop body makes from an answer of readSecret: the field named
      `name` of the fetched secret (nil when it is missing), or the error of the read. */
  function StepOf(answer: Fetch, name: string): (step: Link)
  {
    match answer
    case ReadFailed(err) => Broken(err)
    case Fetched(fields) => Moved(Field(fields, name))
  }

  /** What resolveSymlink reports: (data, nil), (nil, err), or, in this model only,
      a chain longer than the fuel. */
  datatype Outcome = Resolved | Failed(err: Error) | OutOfFuel

  /** What resolveSymlink reports when a chain stops this way. */
  function OutcomeOf(end: End): (r: Outcome)
  {
    match end
    case Done(_) => Resolved
    case FetchError(err, _) => Failed(err)
    case Exhausted(_) => OutOfFuel
  }

  /** A Go map[string]any: a reference type, so writes made through it are seen by the caller. */
  class SecretData {
    var entries: map<string, Value>

    constructor (entries: map<string, Value>)
      ensures this.entries == entries
    {
      this.entries := entries;
    }
  }

  class Client {
    /** c.readSecret, as an oracle. */
    const read: Backend
    /** How references are decoded: always Extract. */
    const decode: Decoder
    /** Every readSecret request made so far, in order. */
    ghost var calls: seq<Call>

    constructor (read: Backend)
      ensures this.read == read && decode == Extract && calls == []
    {
      this.read := read;
      decode := Extract;
      calls := [];
    }

    method ReadSecret(path: string, version: string) returns (r: Fetch)
      modifies this
      ensures r == read.Read(path, version)
      ensures calls == old(calls) + [Call(path, version)]
    {
      r := read.Read(path, version);
      calls := calls + [Call(path, version)];
    }

    /** One pass of the inner loop of resolveSymlink: decode the reference, read the
        secret it names and take the named field, or stop at the error of the read.
        The step is the one that Follow takes at the start of the reference's chain. */
    method ResolveLink(secret: Value) returns (step: Link)
      requires IsSymlink(secret)
      modifies this
      ensures calls == old(calls) + [CallFor(decode(secret.s))]
      ensures step == StepOf(read.Read(decode(secret.s).path, decode(secret.s).version), decode(secret.s).secret)
    {
      var parts := decode(secret.s);
      var fetched := ReadSecret(parts.path, parts.version);
      match fetched {
        case ReadFailed(err) =>
          step := Broken(err);
        case Fetched(fields) =>
          step := Moved(Field(fields, parts.secret));
      }
    }

    /** The inner loop of resolveSymlink for one key: follow the value's references,
        writing each fetched value into data[key], until it is no reference, a read
        fails, or (in this model only) `fuel` reads have been made. */
    method ResolveKey(data: SecretData, key: string, fuel: nat) returns (r: Outcome)
      requires key in data.entries
      modifies this, data
      ensures data.entries == old(data.entries)[key := Follow(old(data.entries)[key], read, decode, fuel).end.Written()]
      ensures calls == old(calls) + Follow(old(data.entries)[key], read, decode, fuel).calls
      ensures r == OutcomeOf(Follow(old(data.entries)[key], read, decode, fuel).end)
    {
      ghost var before := data.entries;
      ghost var whole := Follow(before[key], read, decode, fuel);
      var secret := data.entries[key];
      var left: nat := fuel;
      ghost var chain: seq<Call> := [];
      while IsSymlink(secret)
        invariant left <= fuel
        invariant whole == Chain(chain + Follow(secret, read, decode, left).calls, Follow(secret, read, decode, left).end)
        invariant data.entries == before[key := secret]
        invariant calls == old(calls) + chain
        decreases left
      {
        if left == 0 {
          assert whole == Chain(chain, Exhausted(secret));
          return OutOfFuel;
        }
        var step := ResolveLink(secret);
        ChainAdvance(whole, chain, secret, read, decode, left);
        match step {
          case Broken(err) =>
            return Failed(err);
          case Moved(next) =>
            ghost var call := CallFor(decode(secret.s));
            ReadsAppend(old(calls), chain, [call]);
            secret := next;
            data.entries := data.entries[key := secret];
            chain := chain + [call];
            left := left - 1;
        }
      }
      assert whole == Chain(chain, Done(secret));
      return Resolved;
    }

    /** resolveSymlink, with at most `fuel` reads per key. The keys are visited in an
        unspecified order, returned as `order`. */
    method ResolveSymlink(data: SecretData, fuel: nat) returns (result: SecretData?, r: Outcome, ghost order: seq<string>)
      modifies this, data
      ensures Fresh(old(data.entries), order)
      ensures var run := RunOf(old(data.entries), order, read, decode, fuel);
        data.entries == run.entries && calls == old(calls) + run.calls && r == run.outcome
      ensures data.entries.Keys == old(data.entries).Keys
      ensures r.Resolved? ==> result == data && old(data.entries).Keys <= Seen(order)
      ensures r.Resolved? ==> forall k :: k in data.entries ==> !IsSymlink(data.entries[k])
      ensures r.Resolved? ==> forall k :: k in data.entries ==>
        k in old(data.entries) && data.entries[k] == Follow(old(data.entries)[k], read, decode, fuel).end.Written()
      ensures !r.Resolved? ==>
        // the run stopped at the last key it visited
        result == null && order != [] &&
        RunOf(old(data.entries), order[..|order| - 1], read, decode, fuel).outcome.Resolved?
    {
      ghost var start := data.entries;
      var remaining := data.entries.Keys;
      order := [];
      r := Resolved;
      while remaining != {}
        invariant Fresh(start, order) && remaining == start.Keys - Seen(order)
        invariant r == Resolved == RunOf(start, order, read, decode, fuel).outcome
        invariant data.entries == RunOf(start, order, read, decode, fuel).entries
        invariant calls == old(calls) + RunOf(start, order, read, decode, fuel).calls
        decreases |remaining|
      {
        var key :| key in remaining;
        VisitKey(start, order, remaining, key);
        RunKeepsKeys(start, order, read, decode, fuel);
        RunStep(start, order, key, read, decode, fuel);
        ghost var made := RunOf(start, order, read, decode, fuel).calls;
        ReadsAppend(old(calls), made, Follow(data.entries[key], read, decode, fuel).calls);
        remaining := remaining - {key};
        order := order + [key];
        r := ResolveKey(data, key, fuel);
        if !r.Resolved? {
          RunKeepsKeys(start, order, read, decode, fuel);
          result := null;
          return;
        }
      }
      NoneLeft(start, order, read, decode, fuel);
      RunKeepsKeys(start, order, read, decode, fuel);
      RunValues(start, order, read, decode, fuel);
      result := data;
    }
  }
}
