/** The text file format: how the loader cuts a file into lines the way
    fgets(buf, MaxLineSize, file) does, how one line is split into a key and a text,
    what a whole load yields, and what the saver writes. */
module LineFormat {
  import opened Table

  /** Size of the line buffer handed to fgets: at most MaxLineSize - 1 characters per read. */
  const MaxLineSize := 256
  /** The delimiter between key and text. */
  const Delim := '='

  /** Outcome of one line: the whole load aborts, the line is skipped, or it yields an entry. */
  datatype LineOutcome = Malformed | TooLong | Parsed(entry: Entry)

  /** Outcome of a whole load: the entries in file order, or a corrupt file. */
  datatype Loaded = Loaded(entries: seq<Entry>) | Corrupt

  /** Index of the first `c` in `s`, or |s| when there is none (strpbrk). */
  function FirstIndex(s: seq<char>, c: char): (k: nat)
    ensures k <= |s|
    ensures forall j :: 0 <= j < k ==> s[j] != c
    ensures k < |s| ==> s[k] == c
  {
    if s == [] then 0
    else if s[0] == c then 0
    else 1 + FirstIndex(s[1..], c)
  }

  lemma FirstIndexIs(s: seq<char>, c: char, k: nat)
    requires k <= |s|
    requires forall j :: 0 <= j < k ==> s[j] != c
    requires k < |s| ==> s[k] == c
    ensures FirstIndex(s, c) == k
  {
  }

  /** What C string functions see of a character buffer: everything before the first NUL. */
  function CView(buf: seq<char>): (v: CString)
    ensures v <= buf
    ensures |v| < |buf| ==> buf[|v|] == '\0'
  {
    var k := FirstIndex(buf, '\0');
    assert forall j :: 0 <= j < k ==> buf[..k][j] != '\0';
    buf[..k]
  }

  /** The number of characters one fgets(buf, MaxLineSize, file) call consumes from the
      non-empty remainder `s` of the file: up to and including the first newline, but
      never more than MaxLineSize - 1 characters. */
  function ChunkLength(s: seq<char>): (k: nat)
    requires s != []
    ensures 0 < k <= |s| && k < MaxLineSize
    ensures forall j :: 0 <= j < k - 1 ==> s[j] != '\n'
    ensures s[k - 1] != '\n' ==> k == Min(|s|, MaxLineSize - 1)
  {
    var limit := Min(|s|, MaxLineSize - 1);
    var n := FirstIndex(s[..limit], '\n');
    if n < limit then n + 1 else limit
  }

  /** `c` does not occur in `s`. */
  predicate Excludes(s: seq<char>, c: char)
  {
    forall j :: 0 <= j < |s| ==> s[j] != c
  }

  /** A newline can only be the last character of what fgets returns. */
  ghost predicate IsChunk(chunk: seq<char>)
  {
    forall j :: 0 <= j < |chunk| - 1 ==> chunk[j] != '\n'
  }

  /** The loop body of CConf_LoadConfigFile on one line read by fgets. */
  function ParseLine(chunk: seq<char>): (r: LineOutcome)
    requires IsChunk(chunk)
    ensures r.Malformed? <==> Excludes(CView(chunk), Delim) || Excludes(CView(chunk), '\n')
    ensures r.Parsed? ==> CView(chunk) == r.entry.key + [Delim] + r.entry.text + "\n"
    ensures r.Parsed? ==> Savable(r.entry)
  {
    var v := CView(chunk);
    var mid := FirstIndex(v, Delim);
    var end := FirstIndex(v, '\n');
    if mid == |v| || end == |v| then Malformed
    else
      assert end == |v| - 1 == |chunk| - 1;
      var keyLen := mid;
      var textLen := end - (mid + 1);
      if keyLen >= MaxKeySize then TooLong
      else if textLen >= MaxTextSize then TooLong
      else
        var key := v[..mid];
        var text := v[mid + 1..end];
        assert forall j :: 0 <= j < |key| ==> key[j] == v[j];
        assert forall j :: 0 <= j < |text| ==> text[j] == v[mid + 1 + j];
        assert v == key + [Delim] + text + "\n";
        Parsed(Entry(key, text))
  }

  /** When a line is exactly `key=text\n` with no delimiter in the key and no newline in
      either field, the line is kept exactly when both fields are short enough. */
  lemma ParseFields(key: CString, text: CString)
    requires Excludes(key, Delim) && Excludes(key, '\n') && Excludes(text, '\n')
    ensures IsChunk(key + [Delim] + text + "\n")
    ensures ParseLine(key + [Delim] + text + "\n") ==
      if |key| < MaxKeySize && |text| < MaxTextSize then Parsed(Entry(key, text))
      else TooLong
  {
    LineFields(key, text);
  }

  /** Where strpbrk finds the delimiter and the newline in such a line. */
  lemma LineFields(key: CString, text: CString)
    requires Excludes(key, Delim) && Excludes(key, '\n') && Excludes(text, '\n')
    ensures var line := key + [Delim] + text + "\n";
      IsChunk(line) && CView(line) == line &&
      FirstIndex(line, Delim) == |key| && FirstIndex(line, '\n') == |line| - 1 &&
      line[..|key|] == key && line[|key| + 1..|line| - 1] == text
  {
    var line := key + [Delim] + text + "\n";
    assert forall j :: 0 <= j < |key| ==> line[j] == key[j];
    assert forall j :: 0 <= j < |text| ==> line[|key| + 1 + j] == text[j];
    assert forall j :: 0 <= j < |line| ==> line[j] != '\0' by {
      forall j | 0 <= j < |line| ensures line[j] != '\0' {
        if j < |key| { assert key[j] in key; }
        else if |key| < j < |line| - 1 { assert text[j - |key| - 1] in text; }
      }
    }
    FirstIndexIs(line, '\0', |line|);
    FirstIndexIs(line, Delim, |key|);
    FirstIndexIs(line, '\n', |line| - 1);
    assert line[..|key|] == key;
    assert line[|key| + 1..|line| - 1] == text;
  }

  /** What a stored entry must satisfy to survive a save and a reload unchanged. */
  predicate Savable(e: Entry)
  {
    |e.key| < MaxKeySize && |e.text| < MaxTextSize &&
    Excludes(e.key, Delim) && Excludes(e.key, '\n') && Excludes(e.text, '\n')
  }

  /** Puts entries in front of a load outcome; a corrupt load stays corrupt. */
  function Prepended(es: seq<Entry>, r: Loaded): Loaded
  {
    match r
    case Corrupt => Corrupt
    case Loaded(rest) => Loaded(es + rest)
  }

  /** CConf_LoadConfigFile on the remaining file text `s`, with `lines` reads left:
      the loop stops at the end of the file or after MaxConfigSize reads. */
  function LoadLines(s: seq<char>, lines: nat): (r: Loaded)
    ensures r.Loaded? ==> |r.entries| <= lines
    ensures r.Loaded? ==> forall i :: 0 <= i < |r.entries| ==> Savable(r.entries[i])
    decreases |s|, 1
  {
    if lines == 0 || s == [] then Loaded([]) else LoadLine(s, lines)
  }

  /** One pass of the load loop: every read consumes one line, kept or skipped; a
      malformed line discards everything. */
  function LoadLine(s: seq<char>, lines: nat): (r: Loaded)
    requires s != [] && lines > 0
    ensures r.Loaded? ==> |r.entries| <= lines
    ensures r.Loaded? ==> forall i :: 0 <= i < |r.entries| ==> Savable(r.entries[i])
    decreases |s|, 0
  {
    var k := ChunkLength(s);
    match ParseLine(s[..k])
    case Malformed => Corrupt
    case TooLong => LoadLines(s[k..], lines - 1)
    case Parsed(e) => Prepended([e], LoadLines(s[k..], lines - 1))
  }

  /** A load from an absent or unopenable file (None) gives an empty table. */
  function LoadFile(file: Option<seq<char>>): Loaded
  {
    match file
    case None => Loaded([])
    case Some(s) => LoadLines(s, MaxConfigSize)
  }

  /** One fprintf(file, "%s%s%s\n", key, "=", text). */
  function FormatLine(e: Entry): seq<char>
  {
    e.key + [Delim] + e.text + "\n"
  }

  /** Cconf_SaveConfigFile: every entry as one line, in table order. */
  function Serialize(es: seq<Entry>): seq<char>
  {
    if es == [] then [] else FormatLine(es[0]) + Serialize(es[1..])
  }

  lemma {:induction false} SerializeConcat(a: seq<Entry>, b: seq<Entry>)
    ensures Serialize(a + b) == Serialize(a) + Serialize(b)
  {
    if a == [] {
      assert a + b == b;
    } else {
      assert (a + b)[1..] == a[1..] + b;
      SerializeConcat(a[1..], b);
    }
  }

  /** Writing one more entry appends exactly its line. */
  lemma SerializeSnoc(es: seq<Entry>, e: Entry)
    ensures Serialize(es + [e]) == Serialize(es) + FormatLine(e)
  {
    SerializeConcat(es, [e]);
  }

  /** A line of a saved file is read back by exactly one fgets call. */
  lemma ChunkOfLine(line: seq<char>, rest: seq<char>)
    requires 0 < |line| < MaxLineSize && line[|line| - 1] == '\n'
    requires IsChunk(line)
    ensures ChunkLength(line + rest) == |line|
    ensures (line + rest)[..|line|] == line && (line + rest)[|line|..] == rest
  {
    var s := line + rest;
    assert forall j :: 0 <= j < |line| ==> s[j] == line[j];
  }

  /** LoadLines under a name without fuel, so that stating an induction hypothesis
      about it does not unfold the loader. */
  function LoadFrom(s: seq<char>, lines: nat): Loaded
  {
    LoadLines(s, lines)
  }

  /** One saved line is read back as its entry, with one read fewer for the rest. */
  lemma LoadSavedLine(e: Entry, rest: seq<char>, lines: nat)
    requires Savable(e) && lines > 0
    ensures LoadFrom(FormatLine(e) + rest, lines) == Prepended([e], LoadFrom(rest, lines - 1))
  {
    ParseFields(e.key, e.text);
    ChunkOfLine(FormatLine(e), rest);
    assert LoadLine(FormatLine(e) + rest, lines) == Prepended([e], LoadLines(rest, lines - 1));
  }

  lemma PrependedNone(r: Loaded)
    ensures Prepended([], r) == r
  {
    match r
    case Corrupt =>
    case Loaded(t) => assert [] + t == t;
  }

  lemma PrependedTwice(a: seq<Entry>, b: seq<Entry>, r: Loaded)
    ensures Prepended(a, Prepended(b, r)) == Prepended(a + b, r)
  {
    match r
    case Corrupt =>
    case Loaded(t) => assert a + (b + t) == (a + b) + t;
  }

  lemma PrependedHead(es: seq<Entry>, r: Loaded)
    requires es != []
    ensures Prepended([es[0]], Prepended(es[1..], r)) == Prepended(es, r)
  {
    PrependedTwice([es[0]], es[1..], r);
    assert [es[0]] + es[1..] == es;
  }

  /** The saved lines of `es` followed by the text `s`. */
  function SavedBefore(es: seq<Entry>, s: seq<char>): (file: seq<char>)
  {
    if es == [] then s else FormatLine(es[0]) + SavedBefore(es[1..], s)
  }

  lemma {:induction false} SavedBeforeIs(es: seq<Entry>, s: seq<char>)
    ensures SavedBefore(es, s) == Serialize(es) + s
  {
    if es == [] {
      assert Serialize(es) + s == s;
    } else {
      SavedBeforeIs(es[1..], s);
      assert Serialize(es) + s == FormatLine(es[0]) + (Serialize(es[1..]) + s);
    }
  }

  lemma {:induction false} LoadAfterSavedLines(es: seq<Entry>, s: seq<char>, file: seq<char>, lines: nat, left: nat)
    requires forall i :: 0 <= i < |es| ==> Savable(es[i])
    requires lines == |es| + left
    requires file == SavedBefore(es, s)
    ensures LoadFrom(file, lines) == Prepended(es, LoadFrom(s, left))
  {
    if es == [] {
      PrependedNone(LoadFrom(s, left));
    } else {
      var rest := SavedBefore(es[1..], s);
      assert file == FormatLine(es[0]) + rest;
      LoadAfterSavedLines(es[1..], s, rest, lines - 1, left);
      LoadSavedLine(es[0], rest, lines);
      PrependedHead(es, LoadFrom(s, left));
    }
  }

  /** Loading a saved prefix of well-formed lines yields those entries, in order, ahead
      of whatever the rest of the file yields with the reads that remain. */
  lemma LoadAfterSaved(es: seq<Entry>, s: seq<char>, lines: nat, left: nat)
    requires forall i :: 0 <= i < |es| ==> Savable(es[i])
    requires lines == |es| + left
    ensures LoadLines(Serialize(es) + s, lines) == Prepended(es, LoadLines(s, left))
  {
    SavedBeforeIs(es, s);
    LoadAfterSavedLines(es, s, Serialize(es) + s, lines, left);
  }

  /** Save then load: a table of at most MaxConfigSize savable entries comes back as it was. */
  lemma SaveLoadRoundTrip(es: seq<Entry>)
    requires forall i :: 0 <= i < |es| ==> Savable(es[i])
    requires |es| <= MaxConfigSize
    ensures LoadFile(Some(Serialize(es))) == Loaded(es)
  {
    LoadAfterSaved(es, [], MaxConfigSize, MaxConfigSize - |es|);
    assert Serialize(es) + [] == Serialize(es);
    assert es + [] == es;
  }

  /** The load stops after MaxConfigSize lines: of a longer saved file only the first
      MaxConfigSize entries come back. */
  lemma LoadStopsAtCapacity(es: seq<Entry>)
    requires forall i :: 0 <= i < |es| ==> Savable(es[i])
    requires |es| > MaxConfigSize
    ensures LoadFile(Some(Serialize(es))) == Loaded(es[..MaxConfigSize])
  {
    var front, back := es[..MaxConfigSize], es[MaxConfigSize..];
    assert es == front + back;
    SerializeConcat(front, back);
    LoadAfterSaved(front, Serialize(back), MaxConfigSize, 0);
    assert front + [] == front;
  }

  /** Loading what was loaded and saved gives the same entries again. */
  lemma LoadSaveLoad(s: seq<char>)
    requires LoadFile(Some(s)).Loaded?
    ensures LoadFile(Some(Serialize(LoadFile(Some(s)).entries))) == LoadFile(Some(s))
  {
    SaveLoadRoundTrip(LoadFile(Some(s)).entries);
  }

  /** A malformed line within the first MaxConfigSize lines aborts the whole load,
      however many good lines precede it: none of them survives. */
  lemma MalformedAborts(es: seq<Entry>, s: seq<char>)
    requires forall i :: 0 <= i < |es| ==> Savable(es[i])
    requires |es| < MaxConfigSize
    requires s != [] && ParseLine(s[..ChunkLength(s)]).Malformed?
    ensures LoadFile(Some(Serialize(es) + s)) == Corrupt
  {
    LoadAfterSaved(es, s, MaxConfigSize, MaxConfigSize - |es|);
  }

  /** A line whose key or text is too long is skipped: it yields no entry but uses up
      one of the MaxConfigSize reads, and loading goes on with the next line. */
  lemma OverlongSkipped(es: seq<Entry>, key: CString, text: CString, s: seq<char>)
    requires forall i :: 0 <= i < |es| ==> Savable(es[i])
    requires |es| < MaxConfigSize
    requires Excludes(key, Delim) && Excludes(key, '\n') && Excludes(text, '\n')
    requires |key| + |text| + 2 < MaxLineSize
    requires |key| >= MaxKeySize || |text| >= MaxTextSize
    ensures LoadFile(Some(Serialize(es) + (key + [Delim] + text + "\n") + s)) ==
            Prepended(es, LoadLines(s, MaxConfigSize - |es| - 1))
  {
    var line := key + [Delim] + text + "\n";
    assert Serialize(es) + line + s == Serialize(es) + (line + s);
    LoadAfterSaved(es, line + s, MaxConfigSize, MaxConfigSize - |es|);
    ParseFields(key, text);
    LoadSkippedLine(line, s, MaxConfigSize - |es|);
  }

  /** A skipped line costs one read and yields nothing. */
  lemma LoadSkippedLine(line: seq<char>, rest: seq<char>, lines: nat)
    requires 0 < |line| < MaxLineSize && line[|line| - 1] == '\n'
    requires IsChunk(line) && ParseLine(line) == TooLong
    requires lines > 0
    ensures LoadLines(line + rest, lines) == LoadLines(rest, lines - 1)
  {
    ChunkOfLine(line, rest);
  }

  /** A line longer than the fgets buffer holds arrives without its newline in the
      first read, so the whole load aborts. */
  lemma LongLineAborts(s: seq<char>, lines: nat)
    requires lines > 0 && |s| >= MaxLineSize - 1
    requires Excludes(s[..MaxLineSize - 1], '\n')
    ensures LoadLines(s, lines) == Corrupt
  {
  }

  /** The bounds are asymmetric: a key of exactly MaxKeySize characters, which a
      set stores, is skipped when its saved line is read back. */
  lemma FullKeyNotReloaded(e: Entry)
    requires |e.key| == MaxKeySize
    requires Excludes(e.key, Delim) && Excludes(e.key, '\n') && Excludes(e.text, '\n')
    ensures LoadFile(Some(Serialize([e]))) == Loaded([])
  {
    var line := FormatLine(e);
    assert Serialize([e]) == line + Serialize([]);
    ParseFields(e.key, e.text);
    assert ParseLine(line) == TooLong;
    ChunkOfLine(line, []);
    assert line + [] == line;
    assert LoadLines(line, MaxConfigSize) == LoadLines([], MaxConfigSize - 1);
  }

  /** There is no blank-line skipping: an empty line, a line without delimiter and a
      last line without newline are all malformed. */
  lemma MalformedLines(key: CString, text: CString)
    requires Excludes(key, Delim) && Excludes(key, '\n') && Excludes(text, '\n')
    ensures ParseLine("\n").Malformed?
    ensures IsChunk(key + "\n") && ParseLine(key + "\n").Malformed?
    ensures IsChunk(key + [Delim] + text) && ParseLine(key + [Delim] + text).Malformed?
  {
    assert Excludes(CView("\n"), Delim);
    var v := CView(key + "\n");
    assert forall j :: 0 <= j < |v| ==> v[j] == (key + "\n")[j];
    var line := key + [Delim] + text;
    assert forall j :: 0 <= j < |key| ==> line[j] == key[j];
    assert forall j :: 0 <= j < |text| ==> line[|key| + 1 + j] == text[j];
    var w := CView(line);
    assert forall j :: 0 <= j < |w| ==> w[j] == line[j];
  }
}
