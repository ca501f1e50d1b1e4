/**
 * The unit tests of src/commands/set.rs (lines 160-312), replayed as clients
 * of the handlers: each starts from a fresh store, calls `Execute` as the
 * test does and states in its postcondition what the test asserts. A DEL
 * and a GET scenario follow the same pattern. Every argument is a filled
 * bulk string the guard accepts.
 */
module Scenarios {
  import opened Wrappers
  import opened Bytes
  import BulkStrings
  import Arrays
  import opened Commands
  import SetCommand
  import GetCommand
  import DelCommand

  function Text(s: string): Arrays.Value {
    Arrays.BulkString(BulkStrings.Filled(Ascii(s)))
  }

  const KEY: BulkStrings.BulkString := BulkStrings.Filled(Ascii("key"))
  const VALUE: BulkStrings.BulkString := BulkStrings.Filled(Ascii("value"))
  const VALUE2: BulkStrings.BulkString := BulkStrings.Filled(Ascii("value2"))

  /** The guard lets the test's keys and values through. */
  predicate Admits(guard: ArgumentGuard) {
    guard.accepts(Text("key")) && guard.accepts(Text("value")) && guard.accepts(Text("value2"))
  }

  /** The option words the tests use read as their options. */
  lemma Words()
    ensures SetCommand.Classify(Text("XX")) == SetCommand.Xx
    ensures SetCommand.Classify(Text("NX")) == SetCommand.Nx
    ensures SetCommand.Classify(Text("GET")) == SetCommand.GetWord
  {
    SetCommand.ClassifyFilled(Ascii("XX"));
    SetCommand.ClassifyFilled(Ascii("NX"));
    SetCommand.ClassifyFilled(Ascii("GET"));
  }

  /** What `parse_options` makes of the option lists the tests use. */
  lemma OptionLists()
    ensures SetCommand.Options([]) == Ok((SetCommand.SetOption.NotSpecified, SetCommand.GetOption.NotSpecified))
    ensures SetCommand.Options([Text("XX")]) == Ok((SetCommand.IfExists, SetCommand.GetOption.NotSpecified))
    ensures SetCommand.Options([Text("NX")]) == Ok((SetCommand.IfNotExists, SetCommand.GetOption.NotSpecified))
    ensures SetCommand.Options([Text("GET")]) == Ok((SetCommand.SetOption.NotSpecified, SetCommand.Get))
    ensures SetCommand.Options([Text("XX"), Text("GET")]) == Ok((SetCommand.IfExists, SetCommand.Get))
    ensures SetCommand.Options([Text("NX"), Text("GET")]) == Ok((SetCommand.IfNotExists, SetCommand.Get))
  {
    hide SetCommand.Classify;
    Words();
    assert [Text("XX"), Text("GET")][1..] == [Text("GET")];
    assert [Text("NX"), Text("GET")][1..] == [Text("GET")];
  }

  /** `no_options`: SET stores, and a second SET overwrites; both reply OK. */
  method NoOptions(guard: ArgumentGuard) returns (first: Response, second: Response, stored: BulkStrings.BulkString)
    requires Admits(guard)
    ensures first == SimpleString("OK") && second == SimpleString("OK")
    ensures stored == VALUE2
  {
    hide SetCommand.Options;
    OptionLists();
    var data := new Data(map[]);
    assert [Text("key"), Text("value")][2..] == [Text("key"), Text("value2")][2..] == [];
    first := SetCommand.Execute(data, [Text("key"), Text("value")], guard);
    second := SetCommand.Execute(data, [Text("key"), Text("value2")], guard);
    stored := data.entries[KEY];
  }

  /** `xx_not_met`: SET XX on an empty store replies Null and stores nothing. */
  method XxNotMet(guard: ArgumentGuard) returns (response: Response, stored: map<BulkStrings.BulkString, BulkStrings.BulkString>)
    requires Admits(guard)
    ensures response == BulkString(BulkStrings.Null) && stored == map[]
  {
    hide SetCommand.Options;
    OptionLists();
    var data := new Data(map[]);
    response := SetCommand.Execute(data, [Text("key"), Text("value"), Text("XX")], guard);
    stored := data.entries;
  }

  /** `xx_met`: SET XX over an existing key replies OK and overwrites. */
  method XxMet(guard: ArgumentGuard) returns (response: Response, stored: BulkStrings.BulkString)
    requires Admits(guard)
    ensures response == SimpleString("OK") && stored == VALUE2
  {
    hide SetCommand.Options;
    OptionLists();
    var data := new Data(map[KEY := VALUE]);
    response := SetCommand.Execute(data, [Text("key"), Text("value2"), Text("XX")], guard);
    stored := data.entries[KEY];
  }

  /** `nx_not_met`: SET NX over an existing key replies Null and keeps the old value. */
  method NxNotMet(guard: ArgumentGuard) returns (response: Response, stored: BulkStrings.BulkString)
    requires Admits(guard)
    ensures response == BulkString(BulkStrings.Null) && stored == VALUE
  {
    hide SetCommand.Options;
    OptionLists();
    var data := new Data(map[KEY := VALUE]);
    response := SetCommand.Execute(data, [Text("key"), Text("value2"), Text("NX")], guard);
    stored := data.entries[KEY];
  }

  /** `nx_met`: the first SET NX stores and replies OK; the second replies Null and changes nothing. */
  method NxMet(guard: ArgumentGuard) returns (first: Response, second: Response, stored: BulkStrings.BulkString)
    requires Admits(guard)
    ensures first == SimpleString("OK") && second == BulkString(BulkStrings.Null)
    ensures stored == VALUE
  {
    hide SetCommand.Options;
    OptionLists();
    var data := new Data(map[]);
    first := SetCommand.Execute(data, [Text("key"), Text("value"), Text("NX")], guard);
    second := SetCommand.Execute(data, [Text("key"), Text("value2"), Text("NX")], guard);
    stored := data.entries[KEY];
  }

  /** `get`: SET GET replies the prior value, Null the first time. */
  method SetGet(guard: ArgumentGuard) returns (first: Response, second: Response)
    requires Admits(guard)
    ensures first == BulkString(BulkStrings.Null) && second == BulkString(VALUE)
  {
    hide SetCommand.Options;
    OptionLists();
    var data := new Data(map[]);
    first := SetCommand.Execute(data, [Text("key"), Text("value"), Text("GET")], guard);
    second := SetCommand.Execute(data, [Text("key"), Text("value2"), Text("GET")], guard);
  }

  /**
   * `xx_get_not_met`: SET XX GET on an empty store replies Null; after the key
   * is inserted directly, it replies the inserted value and overwrites it.
   */
  method XxGetNotMet(guard: ArgumentGuard) returns (first: Response, second: Response, stored: BulkStrings.BulkString)
    requires Admits(guard)
    ensures first == BulkString(BulkStrings.Null) && second == BulkString(VALUE)
    ensures stored == VALUE2
  {
    hide SetCommand.Options;
    OptionLists();
    var data := new Data(map[]);
    first := SetCommand.Execute(data, [Text("key"), Text("value"), Text("XX"), Text("GET")], guard);
    data.entries := data.entries[KEY := VALUE];
    second := SetCommand.Execute(data, [Text("key"), Text("value2"), Text("XX"), Text("GET")], guard);
    stored := data.entries[KEY];
  }

  /** `xx_get_met`: SET XX GET over an existing key replies the old value and overwrites it. */
  method XxGetMet(guard: ArgumentGuard) returns (response: Response, stored: BulkStrings.BulkString)
    requires Admits(guard)
    ensures response == BulkString(VALUE) && stored == VALUE2
  {
    hide SetCommand.Options;
    OptionLists();
    var data := new Data(map[KEY := VALUE]);
    response := SetCommand.Execute(data, [Text("key"), Text("value2"), Text("XX"), Text("GET")], guard);
    stored := data.entries[KEY];
  }

  /** `nx_get_not_met`: SET NX GET over an existing key replies the old value and keeps it. */
  method NxGetNotMet(guard: ArgumentGuard) returns (response: Response, stored: BulkStrings.BulkString)
    requires Admits(guard)
    ensures response == BulkString(VALUE) && stored == VALUE
  {
    hide SetCommand.Options;
    OptionLists();
    var data := new Data(map[KEY := VALUE]);
    response := SetCommand.Execute(data, [Text("key"), Text("value2"), Text("NX"), Text("GET")], guard);
    stored := data.entries[KEY];
  }

  /** `nx_get_met`: the first SET NX GET stores and replies Null; the second replies the stored value and keeps it. */
  method NxGetMet(guard: ArgumentGuard) returns (first: Response, second: Response, stored: BulkStrings.BulkString)
    requires Admits(guard)
    ensures first == BulkString(BulkStrings.Null) && second == BulkString(VALUE)
    ensures stored == VALUE
  {
    hide SetCommand.Options;
    OptionLists();
    var data := new Data(map[]);
    first := SetCommand.Execute(data, [Text("key"), Text("value"), Text("NX"), Text("GET")], guard);
    second := SetCommand.Execute(data, [Text("key"), Text("value2"), Text("NX"), Text("GET")], guard);
    stored := data.entries[KEY];
  }

  /** GET after SET reads the value back; GET of a key never set replies Null. */
  method GetAfterSet(guard: ArgumentGuard) returns (found: Response, missing: Response)
    requires Admits(guard)
    ensures found == BulkString(VALUE) && missing == BulkString(BulkStrings.Null)
  {
    hide SetCommand.Options;
    OptionLists();
    var data := new Data(map[]);
    assert [Text("key"), Text("value")][2..] == [];
    var _ := SetCommand.Execute(data, [Text("key"), Text("value")], guard);
    found := GetCommand.Execute(data.entries, [Text("key")], guard);
    missing := GetCommand.Execute(data.entries, [Text("value")], guard);
  }

  /** `DEL key value key` on a store holding only `key` removes it and counts it once. */
  method DelRepeatedKey(guard: ArgumentGuard) returns (response: Response, stored: map<BulkStrings.BulkString, BulkStrings.BulkString>)
    requires Admits(guard)
    ensures response == Integer(1) && stored == map[]
  {
    hide DelCommand.Outcome;
    DelTwiceNamed(guard);
    var data := new Data(map[KEY := VALUE]);
    response := DelCommand.Execute(data, [Text("key"), Text("value"), Text("key")], guard);
    stored := data.entries;
  }

  /** The names in `DEL key value key` are the two keys, and of them only `key` is in a store holding `key`. */
  lemma DelTwiceNamed(guard: ArgumentGuard)
    requires Admits(guard)
    ensures DelCommand.Outcome(map[KEY := VALUE], [Text("key"), Text("value"), Text("key")], guard) == (Integer(1), map[])
  {
    var arguments := [Text("key"), Text("value"), Text("key")];
    DelCommand.RejectedAt(arguments, guard, 3);
    assert arguments[..3] == arguments;
    var named := DelCommand.KeysOf(arguments);
    assert arguments[0].bulk == KEY && arguments[1].bulk == VALUE;
    assert named == {KEY, VALUE};
    assert KEY != VALUE by {
      assert |KEY.bytes| == 3;
    }
    assert named * {KEY} == {KEY};
  }
}
