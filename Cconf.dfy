/** The configuration object and its operations: a fixed array of MaxConfigSize entry
    slots of which the first `count` are in use, the text accessors, the integer
    accessors, delete, and loading and saving the text file. */
module Cconf {
  import opened Table
  import opened LineFormat
  import opened IntText

  /** A cconf_config: `values` points to MaxConfigSize slots, `count` of them used. */
  class Config {
    var values: array<Entry>
    var count: nat

    ghost predicate Valid()
      reads this
    {
      values.Length == MaxConfigSize && count <= MaxConfigSize
    }

    /** The entries in use, in slot order. */
    ghost function Contents(): seq<Entry>
      reads this, values
      requires Valid()
    {
      values[..count]
    }

    /** The calloc'd configuration: every slot zeroed, none in use. */
    constructor ()
      ensures Valid() && fresh(values) && Contents() == []
    {
      values := new Entry[MaxConfigSize](_ => Entry("", ""));
      count := 0;
    }

    /** The strcmp scan shared by set, get and delete: the first slot in use whose key
        equals `key`. */
    method IndexOf(key: CString) returns (r: Option<nat>)
      requires Valid()
      ensures r == Find(Contents(), key)
    {
      var i := 0;
      while i < count
        invariant i <= count
        invariant forall j :: 0 <= j < i ==> values[j].key != key
      {
        if values[i].key == key {
          FindIs(Contents(), key, i);
          return Some(i);
        }
        i := i + 1;
      }
      FindIs(Contents(), key, count);
      return None;
    }

    /** Cconf_GetValue: the text stored under `key`, or None for the NULL result. */
    method GetValue(key: CString) returns (r: Option<Text>)
      requires Valid()
      ensures r == Lookup(Contents(), key)
    {
      var i := IndexOf(key);
      match i
      case None => r := None;
      case Some(k) => r := Some(values[k].text);
    }

    /** Cconf_SetValue. The source never checks capacity before appending, so a new
        key needs a free slot. */
    method SetValue(key: CString, text: CString)
      requires Valid()
      requires Find(Contents(), key).Some? || count < MaxConfigSize
      modifies this`count, values
      ensures Valid() && values == old(values)
      ensures Contents() == Assign(old(Contents()), key, text)
    {
      var i := IndexOf(key);
      match i
      case Some(k) =>
        values[k] := Entry(values[k].key, Truncate(text, MaxTextSize));
      case None =>
        Append(Entry(Truncate(key, MaxKeySize), Truncate(text, MaxTextSize)));
    }

    /** Fills the first free slot, as the loader's strncpy pair and count++ do. */
    method Append(e: Entry)
      requires Valid() && count < MaxConfigSize
      modifies this`count, values
      ensures Valid() && values == old(values)
      ensures Contents() == old(Contents()) + [e]
    {
      values[count] := e;
      count := count + 1;
      assert Contents() == old(Contents()) + [values[count - 1]];
    }

    /** Cconf_GetSetValue: the stored text; when there is none, `defaultText` is set
        and returned as given (not truncated). */
    method GetSetValue(key: CString, defaultText: CString) returns (r: CString)
      requires Valid()
      requires Find(Contents(), key).Some? || count < MaxConfigSize
      modifies this`count, values
      ensures Valid() && values == old(values)
      ensures Lookup(old(Contents()), key).Some? ==>
                r == Lookup(old(Contents()), key).value && Contents() == old(Contents())
      ensures Lookup(old(Contents()), key).None? ==>
                r == defaultText && Contents() == Assign(old(Contents()), key, defaultText)
    {
      var t := GetValue(key);
      match t
      case Some(s) => r := s;
      case None =>
        SetValue(key, defaultText);
        r := defaultText;
    }

    /** Cconf_SetValueInt: stores the "%d" rendering of `value`. */
    method SetValueInt(key: CString, value: Int32)
      requires Valid()
      requires Find(Contents(), key).Some? || count < MaxConfigSize
      modifies this`count, values
      ensures Valid() && values == old(values)
      ensures Contents() == Assign(old(Contents()), key, FormatInt(value))
    {
      SetValue(key, FormatInt(value));
    }

    /** Cconf_GetValueInt: the stored text read by strtol and cast to int; 0 when the
        key is absent. */
    method GetValueInt(key: CString) returns (v: Int32)
      requires Valid()
      ensures v == IntOf(Lookup(Contents(), key))
    {
      var t := GetValue(key);
      match t
      case None => v := 0;
      case Some(s) => v := ParseInt(s);
    }

    /** Cconf_GetSetValueInt: the stored integer; when there is none, `defaultValue` is
        stored and returned. */
    method GetSetValueInt(key: CString, defaultValue: Int32) returns (v: Int32)
      requires Valid()
      requires Find(Contents(), key).Some? || count < MaxConfigSize
      modifies this`count, values
      ensures Valid() && values == old(values)
      ensures Lookup(old(Contents()), key).Some? ==>
                v == ParseInt(Lookup(old(Contents()), key).value) && Contents() == old(Contents())
      ensures Lookup(old(Contents()), key).None? ==>
                v == defaultValue && Contents() == Assign(old(Contents()), key, FormatInt(defaultValue))
    {
      var t := GetValue(key);
      match t
      case Some(s) => v := ParseInt(s);
      case None =>
        SetValueInt(key, defaultValue);
        v := defaultValue;
    }

    /** Cconf_DeleteValue: the first match is removed by moving every later entry one
        slot down; 0 when a match was removed, 1 when there was none. */
    method DeleteValue(key: CString) returns (status: int)
      requires Valid()
      modifies this`count, values
      ensures Valid() && values == old(values)
      ensures status == if Find(old(Contents()), key).Some? then 0 else 1
      ensures Contents() == Remove(old(Contents()), key)
    {
      var found := IndexOf(key);
      if found.None? {
        return 1;
      }
      var i := found.value;
      ghost var before := Contents();
      MoveDown(i);
      count := count - 1;
      ShiftedIsRemoved(Contents(), before, key, i);
      return 0;
    }

    /** The memmove of Cconf_DeleteValue: every entry in use after slot `i` moves one
        slot down, overwriting slot `i`; the last slot in use keeps its old entry. */
    method MoveDown(i: nat)
      requires Valid() && i < count
      modifies values
      ensures forall k :: 0 <= k < i ==> values[k] == old(values[k])
      ensures forall k :: i <= k < count - 1 ==> values[k] == old(values[k + 1])
      ensures values[count - 1] == old(values[count - 1])
    {
      var j := i;
      while j < count - 1
        invariant i <= j < count
        invariant forall k :: 0 <= k < i ==> values[k] == old(values[k])
        invariant forall k :: i <= k < j ==> values[k] == old(values[k + 1])
        invariant forall k :: j <= k < count ==> values[k] == old(values[k])
      {
        values[j] := values[j + 1];
        j := j + 1;
      }
    }
  }

  /** The entries after the first match, each moved one place down, are what Remove gives. */
  lemma ShiftedIsRemoved(a: seq<Entry>, before: seq<Entry>, key: seq<char>, i: nat)
    requires Find(before, key) == Some(i)
    requires |a| == |before| - 1
    requires forall k :: 0 <= k < i ==> a[k] == before[k]
    requires forall k :: i <= k < |a| ==> a[k] == before[k + 1]
    ensures a == Remove(before, key)
  {
    RemoveSize(before, key);
    RemoveShifts(before, key, i);
  }

  /** The integer a lookup result reads as: strtol of the text, or 0 for not found. */
  function IntOf(t: Option<seq<char>>): (v: Int32)
    ensures t.None? ==> v == 0
  {
    match t
    case None => 0
    case Some(s) => ParseInt(s)
  }

  /** CConf_LoadConfigFile on the file's contents; None for the file stands for a path
      that is NULL or cannot be opened, which gives an empty configuration. A malformed
      line yields None where the source frees the configuration. */
  method LoadConfigFile(file: Option<seq<char>>) returns (r: Option<Config>)
    ensures LoadFile(file).Corrupt? ==> r.None?
    ensures LoadFile(file).Loaded? ==>
              r.Some? && fresh(r.value) && fresh(r.value.values) && r.value.Valid() &&
              r.value.Contents() == LoadFile(file).entries
  {
    var config := new Config();
    if file.None? {
      return Some(config);
    }
    // `rest` is what fgets has not read yet; `i` counts the reads; `loaded` is what
    // the slots in use hold.
    var rest, i := file.value, 0;
    ghost var loaded: seq<Entry> := [];
    ghost var result := LoadFrom(rest, MaxConfigSize);
    PrependedNone(result);
    while i < MaxConfigSize && rest != []
      invariant i <= MaxConfigSize
      invariant fresh(config) && fresh(config.values) && config.Valid()
      invariant config.Contents() == loaded && |loaded| <= i
      invariant result == Prepended(loaded, LoadFrom(rest, MaxConfigSize - i))
      decreases |rest|
    {
      var k := ChunkLength(rest);
      var line, next := rest[..k], rest[k..];
      LoadTurn(loaded, rest, i);
      match ParseLine(line)
      case Malformed =>
        return None;
      case TooLong =>
        rest, i := next, i + 1;
      case Parsed(e) =>
        config.Append(e);
        loaded := loaded + [e];
        rest, i := next, i + 1;
    }
    assert LoadFrom(rest, MaxConfigSize - i) == Loaded([]);
    assert loaded + [] == loaded;
    return Some(config);
  }

  /** One turn of the load loop, the `i`-th read: what it does to the entries loaded so far. */
  lemma LoadTurn(loaded: seq<Entry>, rest: seq<char>, i: nat)
    requires rest != [] && i < MaxConfigSize
    ensures var k := ChunkLength(rest);
            var before := Prepended(loaded, LoadFrom(rest, MaxConfigSize - i));
            match ParseLine(rest[..k])
            case Malformed => before == Corrupt
            case TooLong => before == Prepended(loaded, LoadFrom(rest[k..], MaxConfigSize - (i + 1)))
            case Parsed(e) => before == Prepended(loaded + [e], LoadFrom(rest[k..], MaxConfigSize - (i + 1)))
  {
    var k := ChunkLength(rest);
    assert LoadFrom(rest, MaxConfigSize - i) == LoadLine(rest, MaxConfigSize - i);
    match ParseLine(rest[..k])
    case Malformed =>
    case TooLong =>
    case Parsed(e) => PrependedTwice(loaded, [e], LoadFrom(rest[k..], MaxConfigSize - (i + 1)));
  }

  /** Cconf_SaveConfigFile: the text written to the file (opening it is not modelled). */
  method SaveConfigFile(config: Config) returns (file: seq<char>)
    requires config.Valid()
    ensures file == Serialize(config.Contents())
  {
    file := [];
    var i := 0;
    while i < config.count
      invariant i <= config.count
      invariant file == Serialize(config.values[..i])
    {
      var e := config.values[i];
      SerializeSnoc(config.values[..i], e);
      assert config.values[..i + 1] == config.values[..i] + [e];
      file := file + FormatLine(e);
      i := i + 1;
    }
    assert config.values[..config.count] == config.Contents();
  }

  /** Default then persist: after get-or-set misses, a get with a key that fits its
      buffer returns the default, truncated to MaxTextSize characters. */
  lemma GetSetThenGet(es: seq<Entry>, key: CString, defaultText: CString)
    requires Lookup(es, key).None? && |key| <= MaxKeySize
    ensures Lookup(Assign(es, key, defaultText), key) == Some(Truncate(defaultText, MaxTextSize))
    ensures |defaultText| <= MaxTextSize ==> Lookup(Assign(es, key, defaultText), key) == Some(defaultText)
  {
    GetAfterSet(es, key, defaultText);
  }

  /** Get after set for integers: a key that fits its buffer reads back the integer
      that was stored. */
  lemma IntGetAfterSet(es: seq<Entry>, key: CString, v: Int32)
    requires |key| <= MaxKeySize
    ensures IntOf(Lookup(Assign(es, key, FormatInt(v)), key)) == v
  {
    GetAfterSet(es, key, FormatInt(v));
    ParseFormatted(v);
  }

  /** Reading an integer from text that is not a number gives 0, as does a missing key. */
  lemma IntOfNonNumeric(t: seq<char>)
    requires var u := SkipSpace(t);
             var d := if u != [] && (u[0] == '-' || u[0] == '+') then u[1..] else u;
             d == [] || DigitValue(d[0]) >= 10
    ensures IntOf(Some(t)) == 0
  {
    NonNumericIsZero(t);
  }
}
