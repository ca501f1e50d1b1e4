/**
 * src/commands/set.rs: `SET key value [XX | NX] [GET]`. The options are read
 * by a loop (`parse_options`), then one of six branches decides whether the
 * store is written and what is replied. Outcome states the same decision
 * declaratively; ParseOptions and Execute follow the source and are proved
 * to agree with it.
 */
module SetCommand {
  import opened Wrappers
  import opened Bytes
  import BulkStrings
  import Arrays
  import opened Commands

  datatype SetOption = NotSpecified | IfExists | IfNotExists

  datatype GetOption = NotSpecified | Get

  const INVALID_ARGUMENT_TYPE: string := "invalid argument type"
  const CONFLICTING_OPTIONS: string := "'XX' and 'NX' can't be used at the same time"
  const INVALID_OPTION: string := "invalid option"
  const INVALID_KEY: string := "invalid argument #1"
  const INVALID_VALUE: string := "invalid argument #2"

  /** What an option argument says, once checked and upper-cased. */
  datatype OptionWord = Xx | Nx | GetWord | Unknown | NotText

  predicate Known(w: OptionWord) {
    w.Xx? || w.Nx? || w.GetWord?
  }

  /** Upper case of an ASCII letter; every other byte stays as it is. */
  function Upper(b: byte): byte {
    if 'a' as int <= b <= 'z' as int then b - 32 else b
  }

  /**
   * `b`, upper-cased, is the ASCII word `word`. For the words XX, NX and GET this
   * is what comparing `to_uppercase()` of valid UTF-8 with them decides: no
   * other character upper-cases to one of their letters.
   */
  predicate SpellsCaseless(b: seq<byte>, word: string) {
    |b| == |word| && forall i :: 0 <= i < |b| ==> Upper(b[i]) == word[i] as int
  }

  /** How `parse_options` reads one option. */
  function Classify(option: Arrays.Value): OptionWord {
    match option.bulk
    case Filled(b) =>
      if !ValidUtf8(b) then NotText
      else if SpellsCaseless(b, "XX") then Xx
      else if SpellsCaseless(b, "NX") then Nx
      else if SpellsCaseless(b, "GET") then GetWord
      else Unknown
    case _ => NotText
  }

  /** A word spelled in ASCII letters is valid UTF-8, so only the spelling decides. */
  lemma ClassifyFilled(b: seq<byte>)
    ensures Classify(Arrays.BulkString(BulkStrings.Filled(b))) == Xx <==> SpellsCaseless(b, "XX")
    ensures Classify(Arrays.BulkString(BulkStrings.Filled(b))) == Nx <==> SpellsCaseless(b, "NX")
    ensures Classify(Arrays.BulkString(BulkStrings.Filled(b))) == GetWord <==> SpellsCaseless(b, "GET")
  {
    if SpellsCaseless(b, "XX") || SpellsCaseless(b, "NX") || SpellsCaseless(b, "GET") {
      forall i | 0 <= i < |b|
        ensures b[i] < 0x80
      {
        assert Upper(b[i]) < 0x80;
      }
      AsciiBytesAreUtf8(b);
    }
  }

  /** The options are matched regardless of case. */
  lemma OptionsIgnoreCase()
    ensures Classify(Arrays.BulkString(BulkStrings.Filled(Ascii("xx")))) == Xx
    ensures Classify(Arrays.BulkString(BulkStrings.Filled(Ascii("Nx")))) == Nx
    ensures Classify(Arrays.BulkString(BulkStrings.Filled(Ascii("gEt")))) == GetWord
    ensures Classify(Arrays.BulkString(BulkStrings.Filled(Ascii("EX")))) == Unknown
  {
    ClassifyFilled(Ascii("xx"));
    ClassifyFilled(Ascii("Nx"));
    ClassifyFilled(Ascii("gEt"));
    var ex := Ascii("EX");
    assert Upper(ex[0]) != 'X' as int && Upper(ex[0]) != 'N' as int;
    assert ex[0] < 0x80 && ex[1] < 0x80;
    AsciiBytesAreUtf8(ex);
  }

  /** `parse_options` from the state (`setOption`, `getOption`) on: the first bad option ends it with its error. */
  function OptionsFrom(options: seq<Arrays.Value>, setOption: SetOption, getOption: GetOption): (r: Result<(SetOption, GetOption), Response>)
    decreases |options|
  {
    if options == [] then Ok((setOption, getOption))
    else
      match Classify(options[0])
      case NotText => Err(Error(INVALID_ARGUMENT_TYPE))
      case Unknown => Err(Error(INVALID_OPTION))
      case GetWord => OptionsFrom(options[1..], setOption, GetOption.Get)
      case Xx =>
        if setOption == SetOption.NotSpecified then OptionsFrom(options[1..], IfExists, getOption)
        else Err(Error(CONFLICTING_OPTIONS))
      case Nx =>
        if setOption == SetOption.NotSpecified then OptionsFrom(options[1..], IfNotExists, getOption)
        else Err(Error(CONFLICTING_OPTIONS))
  }

  function Options(options: seq<Arrays.Value>): Result<(SetOption, GetOption), Response> {
    OptionsFrom(options, SetOption.NotSpecified, GetOption.NotSpecified)
  }

  /** How many options are XX or NX. */
  function ExistenceWords(options: seq<Arrays.Value>): nat
    decreases |options|
  {
    if options == [] then 0
    else (if Classify(options[0]).Xx? || Classify(options[0]).Nx? then 1 else 0) + ExistenceWords(options[1..])
  }

  predicate Mentions(options: seq<Arrays.Value>, w: OptionWord) {
    exists i :: 0 <= i < |options| && Classify(options[i]) == w
  }

  /**
   * The options are accepted exactly when each is XX, NX or GET and at most one
   * of them is XX or NX; then the result says which one (if any) and whether GET
   * was given. A refusal is one of the three option errors.
   */
  lemma OptionsAccepted(options: seq<Arrays.Value>)
    ensures Options(options).Ok? <==>
      (forall i :: 0 <= i < |options| ==> Known(Classify(options[i]))) && ExistenceWords(options) <= 1
    ensures Options(options).Ok? ==>
      && (Options(options).value.0 == IfExists <==> Mentions(options, Xx))
      && (Options(options).value.0 == IfNotExists <==> Mentions(options, Nx))
      && (Options(options).value.1 == GetOption.Get <==> Mentions(options, GetWord))
    ensures Options(options).Err? ==>
      Options(options).error in {Error(INVALID_ARGUMENT_TYPE), Error(INVALID_OPTION), Error(CONFLICTING_OPTIONS)}
  {
    OptionsFromAccepted(options, SetOption.NotSpecified, GetOption.NotSpecified);
  }

  lemma {:induction false} OptionsFromAccepted(options: seq<Arrays.Value>, setOption: SetOption, getOption: GetOption)
    ensures OptionsFrom(options, setOption, getOption).Ok? <==>
      && (forall i :: 0 <= i < |options| ==> Known(Classify(options[i])))
      && ExistenceWords(options) + (if setOption == SetOption.NotSpecified then 0 else 1) <= 1
    ensures OptionsFrom(options, setOption, getOption).Ok? ==>
      && (OptionsFrom(options, setOption, getOption).value.0 == IfExists <==> setOption == IfExists || Mentions(options, Xx))
      && (OptionsFrom(options, setOption, getOption).value.0 == IfNotExists <==> setOption == IfNotExists || Mentions(options, Nx))
      && (OptionsFrom(options, setOption, getOption).value.1 == GetOption.Get <==> getOption == GetOption.Get || Mentions(options, GetWord))
    ensures OptionsFrom(options, setOption, getOption).Err? ==>
      OptionsFrom(options, setOption, getOption).error in {Error(INVALID_ARGUMENT_TYPE), Error(INVALID_OPTION), Error(CONFLICTING_OPTIONS)}
    decreases |options|
  {
    if options != [] {
      var rest := options[1..];
      var w := Classify(options[0]);
      assert forall i :: 0 <= i < |rest| ==> rest[i] == options[i + 1];
      assert forall v :: Mentions(options, v) <==> w == v || Mentions(rest, v) by {
        forall v | Mentions(options, v)
          ensures w == v || Mentions(rest, v)
        {
          var i :| 0 <= i < |options| && Classify(options[i]) == v;
          if i > 0 {
            assert Classify(rest[i - 1]) == v;
          }
        }
      }
      match w
      case Xx => OptionsFromAccepted(rest, IfExists, getOption);
      case Nx => OptionsFromAccepted(rest, IfNotExists, getOption);
      case GetWord => OptionsFromAccepted(rest, setOption, GetOption.Get);
      case Unknown =>
      case NotText =>
    }
  }

  /**
   * The error an option raises where the loop reads it, if any: a missing or
   * non-UTF-8 word is of the wrong type, an unrecognised word is an invalid
   * option, and XX or NX after an earlier XX or NX is a conflict.
   */
  function Offence(w: OptionWord, existenceSeen: bool): Option<string> {
    match w
    case NotText => Some(INVALID_ARGUMENT_TYPE)
    case Unknown => Some(INVALID_OPTION)
    case GetWord => None
    case _ => if existenceSeen then Some(CONFLICTING_OPTIONS) else None
  }

  /**
   * The first offending option decides the error: when the options before
   * index `i` raise nothing and the one at `i` does, the result is exactly
   * that option's error.
   */
  lemma FirstOffenceDecides(options: seq<Arrays.Value>, i: nat)
    requires i < |options|
    requires forall j :: 0 <= j < i ==> Known(Classify(options[j]))
    requires ExistenceWords(options[..i]) <= 1
    requires Offence(Classify(options[i]), ExistenceWords(options[..i]) == 1).Some?
    ensures Options(options) == Err(Error(Offence(Classify(options[i]), ExistenceWords(options[..i]) == 1).value))
  {
    FirstOffenceFrom(options, SetOption.NotSpecified, GetOption.NotSpecified, i);
  }

  /** FirstOffenceDecides from any state of the loop. */
  lemma {:induction false} FirstOffenceFrom(options: seq<Arrays.Value>, setOption: SetOption, getOption: GetOption, i: nat)
    requires i < |options|
    requires forall j :: 0 <= j < i ==> Known(Classify(options[j]))
    requires ExistenceWords(options[..i]) + (if setOption == SetOption.NotSpecified then 0 else 1) <= 1
    requires Offence(Classify(options[i]), setOption != SetOption.NotSpecified || ExistenceWords(options[..i]) == 1).Some?
    ensures OptionsFrom(options, setOption, getOption) ==
      Err(Error(Offence(Classify(options[i]), setOption != SetOption.NotSpecified || ExistenceWords(options[..i]) == 1).value))
    decreases i
  {
    var w := Classify(options[0]);
    var rest := options[1..];
    if i == 0 {
      assert options[..0] == [];
    } else {
      var prefix := options[..i];
      assert prefix[0] == options[0] && prefix[1..] == rest[..i - 1];
      assert Known(w);
      assert forall j :: 0 <= j < i - 1 ==> rest[j] == options[j + 1];
      assert rest[i - 1] == options[i];
      match w
      case Xx => FirstOffenceFrom(rest, IfExists, getOption, i - 1);
      case Nx => FirstOffenceFrom(rest, IfNotExists, getOption, i - 1);
      case GetWord => FirstOffenceFrom(rest, setOption, GetOption.Get, i - 1);
    }
  }

  /** `parse_options`: one pass over the options with early returns. */
  method ParseOptions(options: seq<Arrays.Value>) returns (r: Result<(SetOption, GetOption), Response>)
    ensures r == Options(options)
  {
    var setOption := SetOption.NotSpecified;
    var getOption := GetOption.NotSpecified;
    for i := 0 to |options|
      invariant Options(options) == OptionsFrom(options[i..], setOption, getOption)
    {
      assert options[i..][1..] == options[i + 1..];
      var option := options[i];
      if !option.bulk.Filled? {
        return Err(Error(INVALID_ARGUMENT_TYPE));
      }
      var opt := option.bulk.bytes;
      if !ValidUtf8(opt) {
        return Err(Error(INVALID_ARGUMENT_TYPE));
      }
      if SpellsCaseless(opt, "XX") {
        if setOption != SetOption.NotSpecified {
          return Err(Error(CONFLICTING_OPTIONS));
        }
        setOption := IfExists;
      } else if SpellsCaseless(opt, "NX") {
        if setOption != SetOption.NotSpecified {
          return Err(Error(CONFLICTING_OPTIONS));
        }
        setOption := IfNotExists;
      } else if SpellsCaseless(opt, "GET") {
        getOption := GetOption.Get;
      } else {
        return Err(Error(INVALID_OPTION));
      }
    }
    assert options[|options|..] == [];
    return Ok((setOption, getOption));
  }

  /** The value stored under `key`, or Null when there is none. */
  function Lookup(entries: map<BulkStrings.BulkString, BulkStrings.BulkString>, key: BulkStrings.BulkString): BulkStrings.BulkString {
    if key in entries then entries[key] else BulkStrings.Null
  }

  /** Whether SET with existence option `set` writes, given whether the key is present. */
  predicate Writes(setOption: SetOption, present: bool) {
    match setOption
    case NotSpecified => true
    case IfExists => present
    case IfNotExists => !present
  }

  /**
   * The decision table of `execute`, stated as a rule: write when the existence
   * condition holds; with GET reply the prior value (Null when absent), without
   * it reply OK after a write and Null otherwise.
   */
  function Decide(entries: map<BulkStrings.BulkString, BulkStrings.BulkString>, key: BulkStrings.BulkString,
                  value: BulkStrings.BulkString, setOption: SetOption, getOption: GetOption)
    : (Response, map<BulkStrings.BulkString, BulkStrings.BulkString>)
  {
    var writes := Writes(setOption, key in entries);
    var reply :=
      if getOption == GetOption.Get then BulkString(Lookup(entries, key))
      else if writes then SimpleString("OK")
      else BulkString(BulkStrings.Null);
    (reply, if writes then entries[key := value] else entries)
  }

  /** The reply of SET on `arguments` and the store after it. */
  function Outcome(entries: map<BulkStrings.BulkString, BulkStrings.BulkString>, arguments: seq<Arrays.Value>, guard: ArgumentGuard)
    : (Response, map<BulkStrings.BulkString, BulkStrings.BulkString>)
  {
    if !(2 <= |arguments| <= 4) then (Error(WRONG_NUMBER_OF_ARGUMENTS), entries)
    else if !guard.accepts(arguments[0]) then (guard.rejection(Some(INVALID_KEY)), entries)
    else if !guard.accepts(arguments[1]) then (guard.rejection(Some(INVALID_VALUE)), entries)
    else
      match Options(arguments[2..])
      case Err(e) => (e, entries)
      case Ok((setOption, getOption)) => Decide(entries, arguments[0].bulk, arguments[1].bulk, setOption, getOption)
  }

  /** `Set::execute`: checks the arguments, reads the options, then takes one of six branches. */
  method Execute(data: Data, arguments: seq<Arrays.Value>, guard: ArgumentGuard) returns (response: Response)
    modifies data
    ensures (response, data.entries) == Outcome(old(data.entries), arguments, guard)
  {
    if !(2 <= |arguments| <= 4) {
      return Error(WRONG_NUMBER_OF_ARGUMENTS);
    }
    if !guard.accepts(arguments[0]) {
      return guard.rejection(Some(INVALID_KEY));
    }
    var key := arguments[0].bulk;
    if !guard.accepts(arguments[1]) {
      return guard.rejection(Some(INVALID_VALUE));
    }
    var value := arguments[1].bulk;
    var options := ParseOptions(arguments[2..]);
    if options.Err? {
      return options.error;
    }
    var (setOption, getOption) := options.value;
    match (setOption, getOption)
    case (NotSpecified, NotSpecified) =>
      data.entries := data.entries[key := value];
      response := SimpleString("OK");
    case (NotSpecified, Get) =>
      var oldValue := if key in data.entries then data.entries[key] else BulkStrings.Null;
      data.entries := data.entries[key := value];
      response := BulkString(oldValue);
    case (IfExists, NotSpecified) =>
      if key in data.entries {
        data.entries := data.entries[key := value];
        return SimpleString("OK");
      }
      response := BulkString(BulkStrings.Null);
    case (IfExists, Get) =>
      if key in data.entries {
        var oldValue := data.entries[key];
        data.entries := data.entries[key := value];
        return BulkString(oldValue);
      }
      response := BulkString(BulkStrings.Null);
    case (IfNotExists, NotSpecified) =>
      if key !in data.entries {
        data.entries := data.entries[key := value];
        return SimpleString("OK");
      }
      response := BulkString(BulkStrings.Null);
    case (IfNotExists, Get) =>
      if key !in data.entries {
        data.entries := data.entries[key := value];
        return BulkString(BulkStrings.Null);
      }
      var oldValue := data.entries[key];
      response := BulkString(oldValue);
  }

  /** SET writes at most one entry, `key := value`, and touches no other key. */
  lemma WritesOnlyKey(entries: map<BulkStrings.BulkString, BulkStrings.BulkString>, arguments: seq<Arrays.Value>, guard: ArgumentGuard)
    ensures var after := Outcome(entries, arguments, guard).1;
      || after == entries
      || (|arguments| >= 2 && after == entries[arguments[0].bulk := arguments[1].bulk])
  {
  }

  /**
   * Every refusal comes before any write: a wrong argument count, a rejected
   * key or value, or bad options leave the store as it was, with the matching
   * error.
   */
  lemma RefusalsLeaveStore(entries: map<BulkStrings.BulkString, BulkStrings.BulkString>, arguments: seq<Arrays.Value>, guard: ArgumentGuard)
    ensures !(2 <= |arguments| <= 4) ==> Outcome(entries, arguments, guard) == (Error(WRONG_NUMBER_OF_ARGUMENTS), entries)
    ensures 2 <= |arguments| <= 4 && !guard.accepts(arguments[0]) ==>
      Outcome(entries, arguments, guard) == (guard.rejection(Some(INVALID_KEY)), entries)
    ensures 2 <= |arguments| <= 4 && guard.accepts(arguments[0]) && !guard.accepts(arguments[1]) ==>
      Outcome(entries, arguments, guard) == (guard.rejection(Some(INVALID_VALUE)), entries)
    ensures 2 <= |arguments| <= 4 && guard.accepts(arguments[0]) && guard.accepts(arguments[1]) && Options(arguments[2..]).Err? ==>
      && Outcome(entries, arguments, guard).1 == entries
      && Outcome(entries, arguments, guard).0 in {Error(INVALID_ARGUMENT_TYPE), Error(INVALID_OPTION), Error(CONFLICTING_OPTIONS)}
  {
    if 2 <= |arguments| <= 4 {
      OptionsAccepted(arguments[2..]);
    }
  }

  /** Arguments that pass every check, with the options they carry. */
  predicate Accepted(arguments: seq<Arrays.Value>, guard: ArgumentGuard, setOption: SetOption, getOption: GetOption) {
    && 2 <= |arguments| <= 4
    && guard.accepts(arguments[0]) && guard.accepts(arguments[1])
    && Options(arguments[2..]) == Ok((setOption, getOption))
  }

  /** Without XX or NX the value is stored, overwriting any earlier one. */
  lemma PlainSetStores(entries: map<BulkStrings.BulkString, BulkStrings.BulkString>, arguments: seq<Arrays.Value>, guard: ArgumentGuard, getOption: GetOption)
    requires Accepted(arguments, guard, SetOption.NotSpecified, getOption)
    ensures Outcome(entries, arguments, guard).1 == entries[arguments[0].bulk := arguments[1].bulk]
    ensures getOption == GetOption.NotSpecified ==> Outcome(entries, arguments, guard).0 == SimpleString("OK")
  {
  }

  /** With XX the store changes only if the key is there; otherwise the reply is Null and nothing changes. */
  lemma IfExistsRule(entries: map<BulkStrings.BulkString, BulkStrings.BulkString>, arguments: seq<Arrays.Value>, guard: ArgumentGuard, getOption: GetOption)
    requires Accepted(arguments, guard, IfExists, getOption)
    ensures arguments[0].bulk !in entries ==> Outcome(entries, arguments, guard) == (BulkString(BulkStrings.Null), entries)
    ensures arguments[0].bulk in entries ==> Outcome(entries, arguments, guard).1 == entries[arguments[0].bulk := arguments[1].bulk]
  {
  }

  /**
   * With NX the value is stored only if the key is absent; if it is present
   * nothing changes and the reply is Null, or the existing value with GET.
   */
  lemma IfNotExistsRule(entries: map<BulkStrings.BulkString, BulkStrings.BulkString>, arguments: seq<Arrays.Value>, guard: ArgumentGuard, getOption: GetOption)
    requires Accepted(arguments, guard, IfNotExists, getOption)
    ensures arguments[0].bulk !in entries ==> Outcome(entries, arguments, guard).1 == entries[arguments[0].bulk := arguments[1].bulk]
    ensures arguments[0].bulk in entries ==> Outcome(entries, arguments, guard).1 == entries
    ensures arguments[0].bulk in entries ==>
      Outcome(entries, arguments, guard).0 ==
        (if getOption == GetOption.Get then BulkString(entries[arguments[0].bulk]) else BulkString(BulkStrings.Null))
  {
  }

  /** With GET the reply is the value the key held before, or Null if it held none, whether or not the write happens. */
  lemma GetRepliesPriorValue(entries: map<BulkStrings.BulkString, BulkStrings.BulkString>, arguments: seq<Arrays.Value>, guard: ArgumentGuard, setOption: SetOption)
    requires Accepted(arguments, guard, setOption, GetOption.Get)
    ensures Outcome(entries, arguments, guard).0 == BulkString(Lookup(entries, arguments[0].bulk))
  {
  }
}
