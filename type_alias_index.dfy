/**
 * The type-alias index of the Rust plugin: an inverted index from a type
 * fingerprint to the type aliases whose underlying type produced it.
 *
 * Building: every alias contributes one occurrence per fingerprint of its
 * type reference, whatever its owner.  Querying: a candidate list longer
 * than `MaxCandidates` is rejected outright; otherwise the candidates are
 * walked in order, the processor is offered only the module-level (`Free`)
 * ones, and the walk stops at the first one it accepts.
 */
module TypeAliasIndex {
  import opened Wrappers

  /** Candidate lists longer than this are not processed at all. */
  const MaxCandidates: nat := 10

  /** Where an alias is declared: at module level, in a trait, or in an impl. */
  datatype Owner = Free | Trait(traitName: string) | Impl(implName: string)

  /** A parsed type reference; its shape is only seen through a `Fingerprinter`. */
  datatype TypeRef = TypeRef(text: string)

  datatype TyFingerprint = TyFingerprint(name: string)

  /**
   * Fingerprinting of a type reference with no generic parameters in scope.
   * Its internals are not part of this model; being a function, it is
   * deterministic.
   */
  type Fingerprinter = TypeRef -> seq<TyFingerprint>

  /** A type alias declaration; a malformed one has no type reference. */
  datatype TypeAlias = TypeAlias(name: string, owner: Owner, typeReference: Option<TypeRef>)

  // ---------------------------------------------------------------------
  // Building the index
  // ---------------------------------------------------------------------

  /** The keys under which one alias is recorded, in emission order. */
  function IndexedKeys(alias: TypeAlias, create: Fingerprinter): seq<TyFingerprint>
  {
    match alias.typeReference
    case None => []
    case Some(typeRef) => create(typeRef)
  }

  /** An alias without a type reference is recorded under no key. */
  lemma NoTypeReferenceNoOccurrence(alias: TypeAlias, create: Fingerprinter)
    requires alias.typeReference.None?
    ensures IndexedKeys(alias, create) == []
  {
  }

  /** What is recorded depends on the type reference alone, never on the owner. */
  lemma IndexedKeysIgnoreOwner(a: TypeAlias, b: TypeAlias, create: Fingerprinter)
    requires a.typeReference == b.typeReference
    ensures IndexedKeys(a, create) == IndexedKeys(b, create)
  {
  }

  /** The host's per-alias sink: the keys reported for the alias being indexed. */
  class IndexSink {
    var keys: seq<TyFingerprint>

    constructor ()
      ensures keys == []
    {
      keys := [];
    }

    method Occurrence(key: TyFingerprint)
      modifies this
      ensures keys == old(keys) + [key]
    {
      keys := keys + [key];
    }
  }

  /**
   * Reports one occurrence per fingerprint of the alias's type reference,
   * in order, and nothing when it has none.
   */
  method Index(alias: TypeAlias, create: Fingerprinter, sink: IndexSink)
    modifies sink
    ensures sink.keys == old(sink.keys) + IndexedKeys(alias, create)
  {
    match alias.typeReference {
      case None =>
        return;
      case Some(typeRef) =>
        var fingerprints := create(typeRef);
        for i := 0 to |fingerprints|
          invariant sink.keys == old(sink.keys) + fingerprints[..i]
        {
          sink.Occurrence(fingerprints[i]);
        }
    }
  }

  /** The stored index: every key with the aliases recorded under it. */
  type AliasIndex = map<TyFingerprint, seq<TypeAlias>>

  /** The aliases recorded under `key`; none if the key was never reported. */
  function GetElements(idx: AliasIndex, key: TyFingerprint): seq<TypeAlias>
  {
    if key in idx then idx[key] else []
  }

  /** Stores the occurrences reported for `alias`. */
  function Record(idx: AliasIndex, alias: TypeAlias, keys: seq<TyFingerprint>): AliasIndex
  {
    map key | key in idx.Keys + (set k | k in keys) ::
      GetElements(idx, key) + (if key in keys then [alias] else [])
  }

  /** The index after the aliases have been indexed one after the other. */
  function Build(aliases: seq<TypeAlias>, create: Fingerprinter): AliasIndex
  {
    if aliases == [] then map[]
    else
      var last := aliases[|aliases| - 1];
      Record(Build(aliases[..|aliases| - 1], create), last, IndexedKeys(last, create))
  }

  /** Reference definition: the aliases, in order, one of whose keys is `key`. */
  function AliasesUnder(aliases: seq<TypeAlias>, key: TyFingerprint, create: Fingerprinter): seq<TypeAlias>
  {
    if aliases == [] then []
    else
      (if key in IndexedKeys(aliases[0], create) then [aliases[0]] else [])
      + AliasesUnder(aliases[1..], key, create)
  }

  lemma {:induction false} AliasesUnderAppend(a: seq<TypeAlias>, b: seq<TypeAlias>, key: TyFingerprint, create: Fingerprinter)
    ensures AliasesUnder(a + b, key, create) == AliasesUnder(a, key, create) + AliasesUnder(b, key, create)
  {
    if a == [] {
      assert a + b == b;
    } else {
      assert (a + b)[0] == a[0];
      assert (a + b)[1..] == a[1..] + b;
      AliasesUnderAppend(a[1..], b, key, create);
    }
  }

  /** Building the index one alias at a time agrees with the reference definition. */
  lemma {:induction false} BuildMatchesReference(aliases: seq<TypeAlias>, key: TyFingerprint, create: Fingerprinter)
    ensures GetElements(Build(aliases, create), key) == AliasesUnder(aliases, key, create)
  {
    if aliases != [] {
      var init, last := aliases[..|aliases| - 1], aliases[|aliases| - 1];
      BuildMatchesReference(init, key, create);
      assert aliases == init + [last];
      AliasesUnderAppend(init, [last], key, create);
      assert AliasesUnder([last], key, create)
          == (if key in IndexedKeys(last, create) then [last] else []) + AliasesUnder([], key, create);
    }
  }

  lemma {:induction false} AliasesUnderMembership(aliases: seq<TypeAlias>, key: TyFingerprint, create: Fingerprinter, a: TypeAlias)
    ensures a in AliasesUnder(aliases, key, create)
        <==> a in aliases && a.typeReference.Some? && key in create(a.typeReference.value)
  {
    if aliases != [] {
      AliasesUnderMembership(aliases[1..], key, create, a);
      assert aliases == [aliases[0]] + aliases[1..];
    }
  }

  /**
   * An alias is found under `key` exactly when it was indexed and `key` is
   * one of its type reference's fingerprints; the owner plays no part.
   */
  lemma IndexMembership(aliases: seq<TypeAlias>, key: TyFingerprint, create: Fingerprinter, a: TypeAlias)
    ensures a in GetElements(Build(aliases, create), key)
        <==> a in aliases && a.typeReference.Some? && key in create(a.typeReference.value)
  {
    BuildMatchesReference(aliases, key, create);
    AliasesUnderMembership(aliases, key, create, a);
  }

  /** Aliases declared in traits and impls are stored like any other. */
  lemma NonFreeAliasesAreIndexed(aliases: seq<TypeAlias>, key: TyFingerprint, create: Fingerprinter, a: TypeAlias)
    requires a in aliases && !a.owner.Free?
    requires a.typeReference.Some? && key in create(a.typeReference.value)
    ensures a in GetElements(Build(aliases, create), key)
  {
    IndexMembership(aliases, key, create, a);
  }

  /**
   * Indexing two batches of aliases yields, under every key, the first
   * batch's entries followed by the second's: one batch's contribution does
   * not depend on the other.
   */
  lemma BuildIndependence(first: seq<TypeAlias>, second: seq<TypeAlias>, key: TyFingerprint, create: Fingerprinter)
    ensures GetElements(Build(first + second, create), key)
         == GetElements(Build(first, create), key) + GetElements(Build(second, create), key)
  {
    BuildMatchesReference(first + second, key, create);
    BuildMatchesReference(first, key, create);
    BuildMatchesReference(second, key, create);
    AliasesUnderAppend(first, second, key, create);
  }

  // ---------------------------------------------------------------------
  // Querying the index
  // ---------------------------------------------------------------------

  /** Some module-level candidate is accepted by the processor. */
  predicate SomeFreeAccepted(candidates: seq<TypeAlias>, processor: TypeAlias -> bool)
  {
    exists i :: 0 <= i < |candidates| && candidates[i].owner.Free? && processor(candidates[i])
  }

  /** The answer of the query: not cut off, and some free candidate accepted. */
  predicate PotentialAliasFound(candidates: seq<TypeAlias>, processor: TypeAlias -> bool)
  {
    |candidates| <= MaxCandidates && SomeFreeAccepted(candidates, processor)
  }

  /** The free candidates, in order. */
  function FreeCandidates(candidates: seq<TypeAlias>): seq<TypeAlias>
  {
    if candidates == [] then []
    else (if candidates[0].owner.Free? then [candidates[0]] else []) + FreeCandidates(candidates[1..])
  }

  /**
   * The aliases handed to the processor by a walk that skips non-free
   * candidates and stops at the first accepted one, in call order.
   */
  function ProcessorCalls(candidates: seq<TypeAlias>, processor: TypeAlias -> bool): seq<TypeAlias>
  {
    if candidates == [] then []
    else if !candidates[0].owner.Free? then ProcessorCalls(candidates[1..], processor)
    else if processor(candidates[0]) then [candidates[0]]
    else [candidates[0]] + ProcessorCalls(candidates[1..], processor)
  }

  /**
   * Looks up the candidates fetched for one fingerprint.  Returns `found`;
   * the ghost `calls` records the aliases passed to `processor`, in call order.
   */
  method FindPotentialAliases(candidates: seq<TypeAlias>, processor: TypeAlias -> bool)
    returns (found: bool, ghost calls: seq<TypeAlias>)
    ensures |candidates| > MaxCandidates ==> !found && calls == []
    ensures found == PotentialAliasFound(candidates, processor)
    ensures calls == if |candidates| > MaxCandidates then [] else ProcessorCalls(candidates, processor)
  {
    if |candidates| > MaxCandidates {
      return false, [];
    }
    calls := [];
    var i := 0;
    while i < |candidates|
      invariant 0 <= i <= |candidates|
      invariant forall j :: 0 <= j < i ==> !(candidates[j].owner.Free? && processor(candidates[j]))
      invariant calls + ProcessorCalls(candidates[i..], processor) == ProcessorCalls(candidates, processor)
    {
      var alias := candidates[i];
      assert candidates[i..][1..] == candidates[i + 1..];
      if alias.owner.Free? {
        calls := calls + [alias];
        if processor(alias) {
          return true, calls;
        }
      }
      i := i + 1;
    }
    return false, calls;
  }

  /** The processor is never offered an alias declared in a trait or an impl. */
  lemma {:induction false} ProcessorSeesOnlyFree(candidates: seq<TypeAlias>, processor: TypeAlias -> bool)
    ensures forall a :: a in ProcessorCalls(candidates, processor) ==> a.owner.Free?
  {
    if candidates != [] {
      ProcessorSeesOnlyFree(candidates[1..], processor);
    }
  }

  /**
   * The processor is offered the free candidates in order, every one but the
   * last of them rejected; it is offered all of them when it accepts none.
   */
  lemma {:induction false} ProcessorCallsArePrefixOfFree(candidates: seq<TypeAlias>, processor: TypeAlias -> bool)
    ensures ProcessorCalls(candidates, processor) <= FreeCandidates(candidates)
    ensures !SomeFreeAccepted(candidates, processor) ==> ProcessorCalls(candidates, processor) == FreeCandidates(candidates)
    ensures forall j :: 0 <= j < |ProcessorCalls(candidates, processor)| - 1 ==> !processor(ProcessorCalls(candidates, processor)[j])
  {
    if candidates != [] {
      var rest := candidates[1..];
      ProcessorCallsArePrefixOfFree(rest, processor);
      if !SomeFreeAccepted(candidates, processor) {
        assert !SomeFreeAccepted(rest, processor) by {
          forall i | 0 <= i < |rest| ensures !(rest[i].owner.Free? && processor(rest[i])) {
            assert rest[i] == candidates[i + 1];
          }
        }
      }
    }
  }

  /**
   * The last alias offered is accepted exactly when some free candidate is
   * accepted, so nothing after the first accepted candidate is offered.
   */
  lemma {:induction false} ProcessorCallsStopAtAccepted(candidates: seq<TypeAlias>, processor: TypeAlias -> bool)
    ensures var calls := ProcessorCalls(candidates, processor);
      (calls != [] && processor(calls[|calls| - 1])) <==> SomeFreeAccepted(candidates, processor)
  {
    if candidates != [] {
      var rest := candidates[1..];
      ProcessorCallsStopAtAccepted(rest, processor);
      if SomeFreeAccepted(rest, processor) {
        var i :| 0 <= i < |rest| && rest[i].owner.Free? && processor(rest[i]);
        assert candidates[i + 1] == rest[i];
      }
      if SomeFreeAccepted(candidates, processor) && !(candidates[0].owner.Free? && processor(candidates[0])) {
        var i :| 0 <= i < |candidates| && candidates[i].owner.Free? && processor(candidates[i]);
        assert rest[i - 1] == candidates[i];
      }
    }
  }

  /** With only non-free candidates (or none) the query fails and calls nothing. */
  lemma {:induction false} NoFreeCandidateNoAlias(candidates: seq<TypeAlias>, processor: TypeAlias -> bool)
    requires forall i :: 0 <= i < |candidates| ==> !candidates[i].owner.Free?
    ensures !PotentialAliasFound(candidates, processor)
    ensures ProcessorCalls(candidates, processor) == []
  {
    if candidates != [] {
      NoFreeCandidateNoAlias(candidates[1..], processor);
    }
  }

  /**
   * The cutoff is strict: ten free candidates that the processor accepts
   * are processed, eleven are not.
   */
  lemma CutoffIsStrict(alias: TypeAlias, processor: TypeAlias -> bool)
    requires alias.owner.Free? && processor(alias)
    ensures PotentialAliasFound(seq(MaxCandidates, _ => alias), processor)
    ensures !PotentialAliasFound(seq(MaxCandidates + 1, _ => alias), processor)
  {
    var ten := seq(MaxCandidates, _ => alias);
    assert ten[0].owner.Free? && processor(ten[0]);
  }

  /**
   * `false` means either "cut off" or "nothing accepted": a list with an
   * accepted free candidate and the empty list get the same answer.
   */
  lemma FalseIsAmbiguous(alias: TypeAlias, processor: TypeAlias -> bool)
    requires alias.owner.Free? && processor(alias)
    ensures var tooMany := seq(MaxCandidates + 1, _ => alias);
      SomeFreeAccepted(tooMany, processor) && !PotentialAliasFound(tooMany, processor)
      && !SomeFreeAccepted([], processor) && !PotentialAliasFound([], processor)
  {
    var tooMany := seq(MaxCandidates + 1, _ => alias);
    assert tooMany[0].owner.Free? && processor(tooMany[0]);
  }
}
