/**
 * src/commands/del.rs: `DEL key [key ...]`. A loop removes each argument's
 * key from the store in place and counts the removals that found an entry.
 * Outcome states the result by sets: the store loses exactly the keys named
 * before the first rejected argument, and the count is the number of
 * distinct named keys that were present.
 */
module DelCommand {
  import opened Wrappers
  import BulkStrings
  import Arrays
  import opened Commands

  /** The keys the arguments name. */
  function KeysOf(arguments: seq<Arrays.Value>): set<BulkStrings.BulkString> {
    set i | 0 <= i < |arguments| :: arguments[i].bulk
  }

  /** The index of the first argument the guard rejects, or the number of arguments if it accepts them all. */
  function FirstRejected(arguments: seq<Arrays.Value>, guard: ArgumentGuard): (n: nat)
    ensures n <= |arguments|
    ensures forall i :: 0 <= i < n ==> guard.accepts(arguments[i])
    ensures n < |arguments| ==> !guard.accepts(arguments[n])
    decreases |arguments|
  {
    if arguments == [] || !guard.accepts(arguments[0]) then 0
    else 1 + FirstRejected(arguments[1..], guard)
  }

  /** The reply of DEL on `arguments` and the store after it. */
  function Outcome(entries: map<BulkStrings.BulkString, BulkStrings.BulkString>, arguments: seq<Arrays.Value>, guard: ArgumentGuard)
    : (Response, map<BulkStrings.BulkString, BulkStrings.BulkString>)
  {
    if arguments == [] then (Error(WRONG_NUMBER_OF_ARGUMENTS), entries)
    else
      var n := FirstRejected(arguments, guard);
      var named := KeysOf(arguments[..n]);
      var remaining := entries - named;
      if n < |arguments| then (guard.rejection(None), remaining)
      else (Integer(|named * entries.Keys|), remaining)
  }

  /** `Del::execute`: removes key by key, counting the removals that found an entry. */
  method Execute(data: Data, arguments: seq<Arrays.Value>, guard: ArgumentGuard) returns (response: Response)
    modifies data
    ensures (response, data.entries) == Outcome(old(data.entries), arguments, guard)
  {
    hide Outcome, FirstRejected, KeysOf;
    if |arguments| == 0 {
      NoArguments(data.entries, arguments, guard);
      return Error(WRONG_NUMBER_OF_ARGUMENTS);
    }
    ghost var before := data.entries;
    var deleted := 0;
    NoKeys(arguments);
    for i := 0 to |arguments|
      invariant forall j :: 0 <= j < i ==> guard.accepts(arguments[j])
      invariant data.entries == before - KeysOf(arguments[..i])
      invariant deleted == |KeysOf(arguments[..i]) * before.Keys|
    {
      if !guard.accepts(arguments[i]) {
        Stopped(before, arguments, guard, i);
        return guard.rejection(None);
      }
      var key := arguments[i].bulk;
      KeysStep(arguments, i);
      CountStep(KeysOf(arguments[..i]), key, before);
      StoreStep(KeysOf(arguments[..i]), key, before);
      if key in data.entries {
        data.entries := data.entries - {key};
        deleted := deleted + 1;
      }
    }
    Stopped(before, arguments, guard, |arguments|);
    return Integer(deleted);
  }

  /** DEL without a key is refused and leaves the store alone. */
  lemma NoArguments(entries: map<BulkStrings.BulkString, BulkStrings.BulkString>, arguments: seq<Arrays.Value>, guard: ArgumentGuard)
    requires |arguments| == 0
    ensures Outcome(entries, arguments, guard) == (Error(WRONG_NUMBER_OF_ARGUMENTS), entries)
  {
  }

  /** No arguments name no keys. */
  lemma NoKeys(arguments: seq<Arrays.Value>)
    ensures KeysOf(arguments[..0]) == {}
  {
  }

  /** Where the loop of `Execute` stops, its state is the outcome. */
  lemma Stopped(before: map<BulkStrings.BulkString, BulkStrings.BulkString>, arguments: seq<Arrays.Value>, guard: ArgumentGuard, i: nat)
    requires 0 < |arguments| && i <= |arguments|
    requires forall j :: 0 <= j < i ==> guard.accepts(arguments[j])
    requires i < |arguments| ==> !guard.accepts(arguments[i])
    ensures var named := KeysOf(arguments[..i]);
      Outcome(before, arguments, guard) ==
        if i < |arguments| then (guard.rejection(None), before - named)
        else (Integer(|named * before.Keys|), before - named)
  {
    RejectedAt(arguments, guard, i);
  }

  /** The first rejection is at `i` when the guard accepts everything before it and refuses (or runs out) at it. */
  lemma RejectedAt(arguments: seq<Arrays.Value>, guard: ArgumentGuard, i: nat)
    requires i <= |arguments|
    requires forall j :: 0 <= j < i ==> guard.accepts(arguments[j])
    requires i < |arguments| ==> !guard.accepts(arguments[i])
    ensures FirstRejected(arguments, guard) == i
  {
  }

  /** Naming one more argument adds its key. */
  lemma KeysStep(arguments: seq<Arrays.Value>, i: nat)
    requires i < |arguments|
    ensures KeysOf(arguments[..i + 1]) == KeysOf(arguments[..i]) + {arguments[i].bulk}
  {
    var longer := arguments[..i + 1];
    var shorter := arguments[..i];
    forall k | k in KeysOf(longer)
      ensures k in KeysOf(shorter) + {arguments[i].bulk}
    {
      var j :| 0 <= j < |longer| && longer[j].bulk == k;
      if j < i {
        assert shorter[j] == longer[j];
      }
    }
    forall k | k in KeysOf(shorter)
      ensures k in KeysOf(longer)
    {
      var j :| 0 <= j < |shorter| && shorter[j].bulk == k;
      assert longer[j] == shorter[j];
    }
    assert longer[i] == arguments[i];
  }

  /**
   * Counting one more key: the count of named keys present before grows by
   * one exactly when the key is still in the store, that is, present before
   * and not named yet.
   */
  lemma CountStep(named: set<BulkStrings.BulkString>, key: BulkStrings.BulkString, before: map<BulkStrings.BulkString, BulkStrings.BulkString>)
    ensures key in (before - named) ==> |(named + {key}) * before.Keys| == |named * before.Keys| + 1
    ensures key !in (before - named) ==> (named + {key}) * before.Keys == named * before.Keys
  {
    if key in (before - named) {
      assert (named + {key}) * before.Keys == (named * before.Keys) + {key};
    }
  }

  /** Removing one more key from the store. */
  lemma StoreStep(named: set<BulkStrings.BulkString>, key: BulkStrings.BulkString, before: map<BulkStrings.BulkString, BulkStrings.BulkString>)
    ensures key in (before - named) ==> before - (named + {key}) == (before - named) - {key}
    ensures key !in (before - named) ==> before - (named + {key}) == before - named
  {
  }

  /** A set shares no more elements with another than it has. */
  lemma IntersectionBound<T>(a: set<T>, b: set<T>)
    ensures |a * b| <= |a|
  {
    assert |a - b| + |a * b| == |a|;
  }

  /** The arguments name no more keys than there are arguments. */
  lemma {:induction false} KeysBound(arguments: seq<Arrays.Value>)
    ensures |KeysOf(arguments)| <= |arguments|
    decreases |arguments|
  {
    if arguments != [] {
      var last := |arguments| - 1;
      KeysBound(arguments[..last]);
      KeysStep(arguments, last);
      assert arguments[..last + 1] == arguments;
    }
  }

  /**
   * After DEL no key named before the first rejected argument is left, every
   * other entry keeps its value, and a completed DEL replies with a count
   * between 0 and the number of arguments.
   */
  lemma RemovesNamedKeys(entries: map<BulkStrings.BulkString, BulkStrings.BulkString>, arguments: seq<Arrays.Value>, guard: ArgumentGuard)
    requires arguments != []
    ensures var after := Outcome(entries, arguments, guard).1;
      var n := FirstRejected(arguments, guard);
      && (forall i :: 0 <= i < n ==> arguments[i].bulk !in after)
      && (forall k :: k in entries && k !in KeysOf(arguments[..n]) ==> k in after && after[k] == entries[k])
      && (forall k :: k in after ==> k in entries)
    ensures var reply := Outcome(entries, arguments, guard).0;
      FirstRejected(arguments, guard) == |arguments| ==> reply.Integer? && 0 <= reply.number <= |arguments|
  {
    var n := FirstRejected(arguments, guard);
    var named := KeysOf(arguments[..n]);
    forall i | 0 <= i < n
      ensures arguments[i].bulk in named
    {
      assert arguments[..n][i] == arguments[i];
    }
    KeysBound(arguments[..n]);
    IntersectionBound(named, entries.Keys);
  }
}
