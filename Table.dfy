/** The in-memory table of a configuration: bounded C strings, entries, and the
    value-level meaning of the table operations (first-match lookup, set, delete). */
module Table {

  /** Capacity of a key buffer (without its terminating NUL). */
  const MaxKeySize := 32
  /** Capacity of a text buffer (without its terminating NUL). */
  const MaxTextSize := 128
  /** Number of entry slots a configuration owns. */
  const MaxConfigSize := 64

  datatype Option<+T> = None | Some(value: T)

  /** The contents of a NUL-terminated C string: no NUL inside. */
  type CString = s: seq<char> | '\0' !in s

  /** What a `char key[MaxKeySize + 1]` buffer can hold. */
  type Key = s: CString | |s| <= MaxKeySize

  /** What a `char text[MaxTextSize + 1]` buffer can hold. */
  type Text = s: CString | |s| <= MaxTextSize

  datatype Entry = Entry(key: Key, text: Text)

  function Min(a: int, b: int): int { if a <= b then a else b }

  /** strncpy(dst, s, n) into a zeroed buffer of n + 1 bytes: the first n characters of s. */
  function Truncate(s: CString, n: nat): (r: CString)
    ensures |r| == Min(|s|, n)
    ensures r <= s
  {
    if |s| <= n then s else s[..n]
  }

  /** No two entries share a key. */
  ghost predicate UniqueKeys(es: seq<Entry>)
  {
    forall i, j :: 0 <= i < j < |es| ==> es[i].key != es[j].key
  }

  /** The linear scan with strcmp: the index of the first entry whose key is `key`. */
  function Find(es: seq<Entry>, key: seq<char>): (r: Option<nat>)
    ensures r.Some? ==> r.value < |es| && es[r.value].key == key
    ensures r.Some? ==> forall j :: 0 <= j < r.value ==> es[j].key != key
    ensures r.None? <==> forall j :: 0 <= j < |es| ==> es[j].key != key
  {
    if es == [] then None
    else if es[0].key == key then Some(0)
    else match Find(es[1..], key)
      case None => None
      case Some(i) => Some(i + 1)
  }

  /** The first matching index is determined by the entries. */
  lemma FindIs(es: seq<Entry>, key: seq<char>, i: nat)
    requires i <= |es|
    requires forall j :: 0 <= j < i ==> es[j].key != key
    requires i < |es| ==> es[i].key == key
    ensures Find(es, key) == if i < |es| then Some(i) else None
  {
  }

  /** Find depends on the keys only. */
  lemma FindSameKeys(es: seq<Entry>, es': seq<Entry>, key: seq<char>)
    requires |es| == |es'|
    requires forall j :: 0 <= j < |es| ==> es[j].key == es'[j].key
    ensures Find(es', key) == Find(es, key)
  {
    match Find(es, key)
    case None => FindIs(es', key, |es'|);
    case Some(i) => FindIs(es', key, i);
  }

  /** Cconf_GetValue: the text of the first entry with this key, or not found. */
  function Lookup(es: seq<Entry>, key: seq<char>): (r: Option<Text>)
    ensures r.None? <==> forall j :: 0 <= j < |es| ==> es[j].key != key
    ensures r.Some? ==> exists i :: 0 <= i < |es| && es[i] == Entry(key, r.value)
                                    && forall j :: 0 <= j < i ==> es[j].key != key
  {
    match Find(es, key)
    case None => None
    case Some(i) => Some(es[i].text)
  }

  /** Cconf_SetValue: overwrite the text of the first match, or append a new entry
      whose key is truncated to MaxKeySize characters. */
  function Assign(es: seq<Entry>, key: CString, text: CString): seq<Entry>
  {
    match Find(es, key)
    case Some(i) => es[i := Entry(es[i].key, Truncate(text, MaxTextSize))]
    case None => es + [Entry(Truncate(key, MaxKeySize), Truncate(text, MaxTextSize))]
  }

  /** Cconf_DeleteValue: drop the first match and close the gap, keeping the order. */
  function Remove(es: seq<Entry>, key: seq<char>): seq<Entry>
  {
    match Find(es, key)
    case Some(i) => es[..i] + es[i + 1..]
    case None => es
  }

  /** Setting an existing key never grows the table; a new key adds exactly one entry. */
  lemma AssignSize(es: seq<Entry>, key: CString, text: CString)
    ensures |Assign(es, key, text)| == if Find(es, key).Some? then |es| else |es| + 1
  {
  }

  /** Setting an existing key replaces that entry's text and touches nothing else. */
  lemma AssignExisting(es: seq<Entry>, key: CString, text: CString, i: nat)
    requires Find(es, key) == Some(i)
    ensures |Assign(es, key, text)| == |es|
    ensures Assign(es, key, text)[i] == Entry(key, Truncate(text, MaxTextSize))
    ensures forall j :: 0 <= j < |es| && j != i ==> Assign(es, key, text)[j] == es[j]
  {
  }

  /** Get after set: a key of at most MaxKeySize characters reads back the stored
      (truncated) text. */
  lemma {:induction false} GetAfterSet(es: seq<Entry>, key: CString, text: CString)
    requires |key| <= MaxKeySize
    ensures Lookup(Assign(es, key, text), key) == Some(Truncate(text, MaxTextSize))
  {
    var r := Assign(es, key, text);
    match Find(es, key)
    case Some(i) =>
      FindIs(r, key, i);
    case None =>
      FindIs(r, key, |es|);
  }

  /** Setting one key leaves every other key's lookup as it was. */
  lemma {:induction false} SetKeepsOthers(es: seq<Entry>, key: CString, text: CString, other: seq<char>)
    requires other != key && other != Truncate(key, MaxKeySize)
    ensures Lookup(Assign(es, key, text), other) == Lookup(es, other)
  {
    var r := Assign(es, key, text);
    match Find(es, key)
    case Some(i) =>
      FindSameKeys(es, r, other);
    case None =>
      match Find(es, other)
      case None => FindIs(r, other, |r|);
      case Some(k) => FindIs(r, other, k);
  }

  /** Setting keeps keys unique as long as the key fits its buffer. */
  lemma {:induction false} SetKeepsUnique(es: seq<Entry>, key: CString, text: CString)
    requires UniqueKeys(es)
    requires |key| <= MaxKeySize
    ensures UniqueKeys(Assign(es, key, text))
  {
    var r := Assign(es, key, text);
    match Find(es, key)
    case Some(i) =>
      assert forall j :: 0 <= j < |r| ==> r[j].key == es[j].key;
    case None =>
      assert forall j :: 0 <= j < |es| ==> r[j] == es[j];
  }

  /** A key longer than MaxKeySize is stored truncated, so it is never found again:
      get after set reports not found, and every further set appends another entry. */
  lemma {:induction false} LongKeyIsLost(es: seq<Entry>, key: CString, text: CString, text': CString)
    requires |key| > MaxKeySize
    requires Find(es, key).None?
    ensures Lookup(Assign(es, key, text), key).None?
    ensures |Assign(Assign(es, key, text), key, text')| == |es| + 2
    ensures !UniqueKeys(Assign(Assign(es, key, text), key, text'))
  {
    var r := Assign(es, key, text);
    assert r[|es|].key == key[..MaxKeySize];
    assert forall j :: 0 <= j < |r| ==> r[j].key != key by {
      forall j | 0 <= j < |r| ensures r[j].key != key {
        if j == |es| { assert |r[j].key| != |key|; }
      }
    }
    var r2 := Assign(r, key, text');
    assert Find(r, key).None?;
    assert r2[|es|].key == r2[|es| + 1].key;
  }

  /** Deleting a present key removes exactly one entry. */
  lemma RemoveSize(es: seq<Entry>, key: seq<char>)
    ensures |Remove(es, key)| == if Find(es, key).Some? then |es| - 1 else |es|
  {
  }

  /** Deleting shifts the later entries one slot to the left, in order. */
  lemma RemoveShifts(es: seq<Entry>, key: seq<char>, i: nat)
    requires Find(es, key) == Some(i)
    ensures forall j :: 0 <= j < i ==> Remove(es, key)[j] == es[j]
    ensures forall j :: i <= j < |es| - 1 ==> Remove(es, key)[j] == es[j + 1]
  {
  }

  /** Deleting one key leaves every other key's lookup as it was. */
  lemma {:induction false} DeleteKeepsOthers(es: seq<Entry>, key: seq<char>, other: seq<char>)
    requires other != key
    ensures Lookup(Remove(es, key), other) == Lookup(es, other)
  {
    match Find(es, key)
    case None =>
    case Some(i) =>
      var r := Remove(es, key);
      assert forall j :: 0 <= j < i ==> r[j] == es[j];
      assert forall j :: i <= j < |r| ==> r[j] == es[j + 1];
      match Find(es, other)
      case None => FindIs(r, other, |r|);
      case Some(k) =>
        assert k != i;
        if k < i { FindIs(r, other, k); } else { FindIs(r, other, k - 1); }
  }

  /** In a table with unique keys, a deleted key is gone and uniqueness is kept. */
  lemma {:induction false} DeleteRemovesKey(es: seq<Entry>, key: seq<char>)
    requires UniqueKeys(es)
    ensures Lookup(Remove(es, key), key).None?
    ensures UniqueKeys(Remove(es, key))
  {
    match Find(es, key)
    case None =>
    case Some(i) =>
      var r := Remove(es, key);
      assert forall j :: 0 <= j < i ==> r[j] == es[j];
      assert forall j :: i <= j < |r| ==> r[j] == es[j + 1];
      assert forall j :: 0 <= j < |r| ==> r[j].key != key by {
        forall j | 0 <= j < |r| ensures r[j].key != key {
          if j >= i { assert es[i].key != es[j + 1].key; }
        }
      }
  }

  /** With duplicate keys (as a loaded file may have), delete removes only the first
      match, so the key is then found at its next occurrence. */
  lemma {:induction false} DeleteFirstOfDuplicates(es: seq<Entry>, key: seq<char>, i: nat, k: nat)
    requires Find(es, key) == Some(i)
    requires i < k < |es| && es[k].key == key
    requires forall j :: i < j < k ==> es[j].key != key
    ensures Lookup(Remove(es, key), key) == Some(es[k].text)
  {
    var r := Remove(es, key);
    assert forall j :: 0 <= j < i ==> r[j] == es[j];
    assert forall j :: i <= j < |r| ==> r[j] == es[j + 1];
    FindIs(r, key, k - 1);
  }
}
