/**
 * The task file: saveTasks writes six lines per task and loadTasks reads them
 * back. Writing is `Format`. Reading is `Parse`, which reads each six-line
 * block field by field as the fscanf formats do, stops at the first block it
 * cannot read and never reads more than MAX_TASKS tasks.
 */
module TaskFile {
  import opened Wrappers
  import opened Decimal
  import opened TextLines
  import opened TaskList

  /** The six lines written for one task. */
  function Record(t: Task): (ls: seq<string>)
    ensures |ls| == 6
  {
    [ "Task " + FormatInt(t.number),
      "Description: " + t.description,
      "Time: " + FormatInt02(t.hour) + ":" + FormatInt02(t.minute),
      "Status: " + (if t.completed then "Done" else "Pending"),
      "Carried: " + (if t.carried then "Yes" else "No"),
      "---" ]
  }

  /** The records of the tasks, one six-line block each, in list order. */
  function Records(ts: seq<Task>): (bs: seq<seq<string>>)
    ensures |bs| == |ts|
  {
    seq(|ts|, i requires 0 <= i < |ts| => Record(ts[i]))
  }

  /** The lines of the file. */
  function SaveLines(ts: seq<Task>): (ls: seq<string>)
    ensures |ls| == 6 * |ts|
  {
    ConcatLength(Records(ts));
    Concat(Records(ts))
  }

  /** The text saveTasks writes, replacing the whole file: empty exactly when there are no tasks. */
  function Format(ts: seq<Task>): (text: string)
    ensures text == [] <==> ts == []
  {
    Unlines(SaveLines(ts))
  }

  predicate SixLineBlocks(bs: seq<seq<string>>) {
    forall i :: 0 <= i < |bs| ==> |bs[i]| == 6
  }

  lemma {:induction false} ConcatLength(bs: seq<seq<string>>)
    requires SixLineBlocks(bs)
    ensures |Concat(bs)| == 6 * |bs|
  {
    if bs != [] {
      ConcatLength(bs[1..]);
    }
  }

  /** Block k of six-line blocks sits at lines 6k..6k+5 of their concatenation. */
  lemma {:induction false} ConcatLayout(bs: seq<seq<string>>, k: nat)
    requires SixLineBlocks(bs) && k < |bs|
    ensures |Concat(bs)| == 6 * |bs|
    ensures Concat(bs)[6 * k..6 * k + 6] == bs[k]
  {
    ConcatLength(bs);
    var b, rest := bs[0], Concat(bs[1..]);
    assert Concat(bs) == b + rest;
    if k == 0 {
      assert (b + rest)[0..6] == b;
    } else {
      ConcatLayout(bs[1..], k - 1);
      assert (b + rest)[6 * k..6 * k + 6] == rest[6 * (k - 1)..6 * (k - 1) + 6];
    }
  }

  /** The file holds a six-line record for each task, record k at lines 6k..6k+5. */
  lemma SaveLayout(ts: seq<Task>, k: nat)
    requires k < |ts|
    ensures |SaveLines(ts)| == 6 * |ts|
    ensures SaveLines(ts)[6 * k..6 * k + 6] == Record(ts[k])
  {
    ConcatLayout(Records(ts), k);
  }

  lemma RecordFlags(t: Task)
    ensures Record(t)[3] == "Status: Done" <==> t.completed
    ensures Record(t)[4] == "Carried: Yes" <==> t.carried
  {
  }

  /** The status line says Done exactly for completed tasks, the carried line Yes exactly for carried ones. */
  lemma FlagEncoding(ts: seq<Task>, k: nat)
    requires k < |ts|
    ensures |SaveLines(ts)| == 6 * |ts|
    ensures SaveLines(ts)[6 * k + 3] == "Status: Done" <==> ts[k].completed
    ensures SaveLines(ts)[6 * k + 4] == "Carried: Yes" <==> ts[k].carried
  {
    SaveLayout(ts, k);
    RecordFlags(ts[k]);
    var r := SaveLines(ts)[6 * k..6 * k + 6];
    assert SaveLines(ts)[6 * k + 3] == r[3] && SaveLines(ts)[6 * k + 4] == r[4];
  }

  /** Saving one more task appends its record: the step of the save loop. */
  lemma SaveLinesAppend(ts: seq<Task>, t: Task)
    ensures SaveLines(ts + [t]) == SaveLines(ts) + Record(t)
  {
    assert Records(ts + [t]) == Records(ts) + [Record(t)];
    ConcatAppend(Records(ts), [Record(t)]);
    assert Concat([Record(t)]) == Record(t) + Concat([]);
  }

  /** Saving one more task appends the text of its record: the step of the save loop. */
  lemma FormatAppend(ts: seq<Task>, t: Task)
    ensures Format(ts + [t]) == Format(ts) + Unlines(Record(t))
  {
    SaveLinesAppend(ts, t);
    UnlinesAppend(SaveLines(ts), Record(t));
  }

  /** The rest of a line after a fixed tag, if the line starts with it. */
  function After(tag: string, line: string): (r: Option<string>)
    ensures r.Some? ==> line == tag + r.value
  {
    if tag <= line then Some(line[|tag|..]) else None
  }

  lemma AfterTag(tag: string, rest: string)
    ensures After(tag, tag + rest) == Some(rest)
  {
  }

  /** The white-space characters of C's isspace: space, tab, newline, vertical tab, form feed, carriage return. */
  predicate IsSpace(c: char) {
    c == ' ' || '\t' <= c <= '\r'
  }

  /** What a white-space directive of scanf consumes: all leading white space, and no more. */
  function SkipSpace(s: string): (r: string)
    ensures r == [] || !IsSpace(r[0])
    ensures |r| <= |s|
    ensures s == [] || !IsSpace(s[0]) ==> r == s
  {
    if s != [] && IsSpace(s[0]) then SkipSpace(s[1..]) else s
  }

  /** Skipping white space leaves a suffix of the text. */
  lemma {:induction false} SkipSpaceSuffix(s: string)
    ensures SkipSpace(s) == s[|s| - |SkipSpace(s)|..]
  {
    if s != [] && IsSpace(s[0]) {
      SkipSpaceSuffix(s[1..]);
      assert s[1..][|s| - 1 - |SkipSpace(s)|..] == s[|s| - |SkipSpace(s)|..];
    }
  }

  /** Everything a white-space directive removes is white space. */
  lemma {:induction false} SkipSpaceRemovesSpace(s: string)
    ensures forall j :: 0 <= j < |s| - |SkipSpace(s)| ==> IsSpace(s[j])
  {
    if s != [] && IsSpace(s[0]) {
      SkipSpaceRemovesSpace(s[1..]);
      forall j | 1 <= j < |s| - |SkipSpace(s)|
        ensures IsSpace(s[j])
      {
        assert s[j] == s[1..][j - 1];
      }
    }
  }

  /** A field of a "Tag: %..." line: what follows the tag and the white space after it. */
  function Field(tag: string, line: string): (r: Option<string>)
    ensures r.Some? <==> tag <= line
    ensures r.Some? ==> r.value == [] || !IsSpace(r.value[0])
  {
    match After(tag, line)
    case None => None
    case Some(rest) => Some(SkipSpace(rest))
  }

  /** A field written as the tag, one space and a value not starting with white space reads back as that value. */
  lemma FieldOfWritten(tag: string, value: string)
    requires value == [] || !IsSpace(value[0])
    ensures Field(tag, tag + " " + value) == Some(value)
  {
    var rest := " " + value;
    AfterTag(tag, rest);
    assert rest[0] == ' ' && rest[1..] == value;
    assert SkipSpace(value) == value;
    assert SkipSpace(rest) == SkipSpace(rest[1..]);
  }

  /** "%d:%d" on a field: the hour before the first colon, the minute after it (%d skips white space first). */
  function ParseTime(s: string): (r: Option<(int, int)>)
    ensures r.Some? ==> ':' in s
  {
    var k := NextIndex(s, ':', 0);
    if k == |s| then None
    else
      match (ParseInt(s[..k]), ParseInt(SkipSpace(s[k + 1..])))
      case (Some(h), Some(m)) => Some((h, m))
      case _ => None
  }

  /**
   * One block of loadTasks. A %[^\n] conversion must match at least one
   * character, so an empty description, status or carried field fails; the
   * flags are set only by the exact texts "Done" and "Yes".
   */
  function ParseRecord(ls: seq<string>): (r: Option<Task>)
    ensures r.Some? ==> |ls| == 6 && ls[5] == "---"
    ensures r.Some? ==> r.value.description != [] && Field("Description:", ls[1]) == Some(r.value.description)
  {
    if |ls| != 6 then None
    else
    var n, d, time := Field("Task", ls[0]), Field("Description:", ls[1]), Field("Time:", ls[2]);
    var status, carried := Field("Status:", ls[3]), Field("Carried:", ls[4]);
    if n.None? || d.None? || time.None? || status.None? || carried.None? || ls[5] != "---" then None
    else if d.value == [] || status.value == [] || carried.value == [] then None
    else
      var number, hm := ParseInt(n.value), ParseTime(time.value);
      if number.None? || hm.None? then None
      else Some(Task(number.value, d.value, hm.value.0, hm.value.1, status.value == "Done", carried.value == "Yes"))
  }

  /** The flags come from the status and carried fields alone. */
  lemma FlagsFromFields(ls: seq<string>)
    requires ParseRecord(ls).Some?
    ensures ParseRecord(ls).value.completed <==> Field("Status:", ls[3]) == Some("Done")
    ensures ParseRecord(ls).value.carried <==> Field("Carried:", ls[4]) == Some("Yes")
  {
  }

  /** A field equal to a word: the line written as tag, space, word has it, and any line that has it ends in the word. */
  lemma FieldWord(tag: string, line: string, word: string)
    requires word != [] && !IsSpace(word[0])
    ensures line == tag + " " + word ==> Field(tag, line) == Some(word)
    ensures Field(tag, line) == Some(word) ==> |line| >= |word| && line[|line| - |word|..] == word
  {
    if line == tag + " " + word {
      FieldOfWritten(tag, word);
    }
    if After(tag, line).Some? {
      var rest := After(tag, line).value;
      SkipSpaceSuffix(rest);
      assert line[|line| - |rest|..] == rest;
    }
  }

  /** The status and carried lines saveTasks writes give the fields the flags are tested on, and only lines ending in the words give them. */
  lemma FlagFields(status: string, carried: string)
    ensures status == "Status: Done" ==> Field("Status:", status) == Some("Done")
    ensures status == "Status: Pending" ==> Field("Status:", status) != Some("Done")
    ensures carried == "Carried: Yes" ==> Field("Carried:", carried) == Some("Yes")
    ensures carried == "Carried: No" ==> Field("Carried:", carried) != Some("Yes")
    ensures Field("Status:", status) == Some("Done") ==> |status| >= 4 && status[|status| - 4..] == "Done"
    ensures Field("Carried:", carried) == Some("Yes") ==> |carried| >= 3 && carried[|carried| - 3..] == "Yes"
  {
    assert "Status: Done" == "Status:" + " " + "Done";
    assert "Status: Pending" == "Status:" + " " + "Pending";
    assert "Carried: Yes" == "Carried:" + " " + "Yes";
    assert "Carried: No" == "Carried:" + " " + "No";
    FieldWord("Status:", status, "Done");
    FieldWord("Status:", status, "Pending");
    FieldWord("Carried:", carried, "Yes");
    FieldWord("Carried:", carried, "No");
    assert "Pending" != "Done" by {
      assert |"Pending"| != |"Done"|;
    }
    assert "No" != "Yes" by {
      assert |"No"| != |"Yes"|;
    }
  }

  /** The status and carried lines saveTasks writes set the flags they name; a set flag means its line ends in "Done" or "Yes". */
  lemma FlagDecoding(ls: seq<string>)
    requires ParseRecord(ls).Some?
    ensures ls[3] == "Status: Done" ==> ParseRecord(ls).value.completed
    ensures ls[3] == "Status: Pending" ==> !ParseRecord(ls).value.completed
    ensures ls[4] == "Carried: Yes" ==> ParseRecord(ls).value.carried
    ensures ls[4] == "Carried: No" ==> !ParseRecord(ls).value.carried
    ensures ParseRecord(ls).value.completed ==> |ls[3]| >= 4 && ls[3][|ls[3]| - 4..] == "Done"
    ensures ParseRecord(ls).value.carried ==> |ls[4]| >= 3 && ls[4][|ls[4]| - 3..] == "Yes"
  {
    FlagsFromFields(ls);
    FlagFields(ls[3], ls[4]);
  }

  /** The lines cut into six-line blocks; a last, incomplete block is dropped. */
  function Blocks(ls: seq<string>): (bs: seq<seq<string>>)
    ensures SixLineBlocks(bs) && |bs| == |ls| / 6
  {
    if |ls| < 6 then [] else [ls[..6]] + Blocks(ls[6..])
  }

  /** Each block read on its own. */
  function Parsed(bs: seq<seq<string>>): (rs: seq<Option<Task>>)
    ensures |rs| == |bs|
  {
    seq(|bs|, i requires 0 <= i < |bs| => ParseRecord(bs[i]))
  }

  /** The tasks read while there is room, stopping at the first block that is not a task. */
  function TakeTasks(rs: seq<Option<Task>>, room: nat): (ts: seq<Task>)
    ensures |ts| <= room && |ts| <= |rs|
  {
    if room == 0 || rs == [] || rs[0].None? then []
    else [rs[0].value] + TakeTasks(rs[1..], room - 1)
  }

  /** Task i of what is read comes from block i, and reading stops at the first block that is not a task. */
  lemma {:induction false} TakeTasksAt(rs: seq<Option<Task>>, room: nat, i: nat)
    requires i < |rs| && i < room
    ensures i < |TakeTasks(rs, room)| ==> rs[i] == Some(TakeTasks(rs, room)[i])
    ensures i == |TakeTasks(rs, room)| ==> rs[i].None?
  {
    if i > 0 && rs[0].Some? {
      TakeTasksAt(rs[1..], room - 1, i - 1);
    }
  }

  /** Blocks that each read as the corresponding task read as the whole list. */
  lemma {:induction false} TakeTasksAll(rs: seq<Option<Task>>, ts: seq<Task>, room: nat)
    requires |rs| == |ts| <= room
    requires forall i :: 0 <= i < |rs| ==> rs[i] == Some(ts[i])
    ensures TakeTasks(rs, room) == ts
  {
    if rs != [] {
      TakeTasksAll(rs[1..], ts[1..], room - 1);
      assert ts == [ts[0]] + ts[1..];
    }
  }

  /** loadTasks on the text of an existing file: at most MAX_TASKS tasks, in file order. */
  function Parse(text: string): (ts: seq<Task>)
    ensures |ts| <= MAX_TASKS
  {
    TakeTasks(Parsed(Blocks(Lines(text))), MAX_TASKS)
  }

  /**
   * A description that loadTasks reads back as written: on one line, not empty
   * (%[^\n] needs a character) and not starting with white space (which the
   * space in "Description: " skips).
   */
  predicate StorableDescription(d: string) {
    d != [] && !IsSpace(d[0]) && '\n' !in d
  }

  predicate Storable(ts: seq<Task>) {
    forall i :: 0 <= i < |ts| ==> StorableDescription(ts[i].description)
  }

  /** A numeral printf wrote does not start with white space. */
  lemma NumeralStart(s: string)
    requires IsNumeral(s)
    ensures s == [] || !IsSpace(s[0])
  {
  }

  lemma ParseTimeFormat(hour: int, minute: int)
    ensures ParseTime(FormatInt02(hour) + ":" + FormatInt02(minute)) == Some((hour, minute))
  {
    var hs, ms := FormatInt02(hour), FormatInt02(minute);
    var s := hs + ":" + ms;
    FormatAreNumerals(hour);
    FormatAreNumerals(minute);
    NumeralStart(ms);
    forall j | 0 <= j < |hs|
      ensures s[j] != ':'
    {
      assert s[j] == hs[j];
    }
    assert s[|hs|] == ':';
    assert NextIndex(s, ':', 0) == |hs|;
    assert s[..|hs|] == hs && s[|hs| + 1..] == ms;
    assert SkipSpace(ms) == ms;
    ParseFormatInt02(hour);
    ParseFormatInt02(minute);
  }

  /** Each line of a record holds, after its tag, exactly the value printed into it. */
  lemma RecordFields(t: Task)
    requires StorableDescription(t.description)
    ensures Field("Task", Record(t)[0]) == Some(FormatInt(t.number))
    ensures Field("Description:", Record(t)[1]) == Some(t.description)
    ensures Field("Time:", Record(t)[2]) == Some(FormatInt02(t.hour) + ":" + FormatInt02(t.minute))
    ensures Field("Status:", Record(t)[3]) == Some(if t.completed then "Done" else "Pending")
    ensures Field("Carried:", Record(t)[4]) == Some(if t.carried then "Yes" else "No")
  {
    var ls := Record(t);
    var number := FormatInt(t.number);
    var time := FormatInt02(t.hour) + ":" + FormatInt02(t.minute);
    FormatAreNumerals(t.number);
    FormatAreNumerals(t.hour);
    NumeralStart(number);
    NumeralStart(FormatInt02(t.hour));
    assert ls[0] == "Task" + " " + number;
    assert ls[1] == "Description:" + " " + t.description;
    assert ls[2] == "Time:" + " " + time;
    assert ls[3] == "Status:" + " " + (if t.completed then "Done" else "Pending");
    assert ls[4] == "Carried:" + " " + (if t.carried then "Yes" else "No");
    FieldOfWritten("Task", number);
    FieldOfWritten("Description:", t.description);
    FieldOfWritten("Time:", time);
    FieldOfWritten("Status:", if t.completed then "Done" else "Pending");
    FieldOfWritten("Carried:", if t.carried then "Yes" else "No");
  }

  /** Every record reads back as the task it was written from, when its description can be stored. */
  lemma ParseRecordOfRecord(t: Task)
    requires StorableDescription(t.description)
    ensures ParseRecord(Record(t)) == Some(t)
  {
    RecordFields(t);
    assert "Pending" != "Done" by {
      assert |"Pending"| != |"Done"|;
    }
    assert "No" != "Yes" by {
      assert |"No"| != |"Yes"|;
    }
    ParseFormatInt(t.number);
    ParseTimeFormat(t.hour, t.minute);
  }

  /** Cutting concatenated six-line blocks into blocks gives the blocks back. */
  lemma {:induction false} BlocksConcat(bs: seq<seq<string>>)
    requires SixLineBlocks(bs)
    ensures Blocks(Concat(bs)) == bs
  {
    if bs != [] {
      ConcatLength(bs);
      var b, rest := bs[0], Concat(bs[1..]);
      assert Concat(bs) == b + rest;
      assert (b + rest)[..6] == b && (b + rest)[6..] == rest;
      BlocksConcat(bs[1..]);
      assert bs == [b] + bs[1..];
    }
  }

  lemma ParseOfRecords(ts: seq<Task>)
    requires |ts| <= MAX_TASKS && Storable(ts)
    ensures TakeTasks(Parsed(Records(ts)), MAX_TASKS) == ts
  {
    var rs := Parsed(Records(ts));
    forall i | 0 <= i < |rs|
      ensures rs[i] == Some(ts[i])
    {
      ParseRecordOfRecord(ts[i]);
    }
    TakeTasksAll(rs, ts, MAX_TASKS);
  }

  /** A line joined from two pieces without a newline has none. */
  lemma NoNewlineJoin(a: string, b: string)
    requires '\n' !in a && '\n' !in b
    ensures '\n' !in a + b
  {
  }

  lemma RecordOneLineEach(t: Task)
    requires StorableDescription(t.description)
    ensures NoNewlines(Record(t))
  {
    var hs, ms := FormatInt02(t.hour), FormatInt02(t.minute);
    FormatAreNumerals(t.number);
    FormatAreNumerals(t.hour);
    FormatAreNumerals(t.minute);
    NoNewlineJoin("Task ", FormatInt(t.number));
    NoNewlineJoin("Description: ", t.description);
    NoNewlineJoin("Time: ", hs);
    NoNewlineJoin("Time: " + hs, ":");
    NoNewlineJoin("Time: " + hs + ":", ms);
    var r := Record(t);
    assert r[0] == "Task " + FormatInt(t.number);
    assert r[1] == "Description: " + t.description;
    assert r[2] == "Time: " + hs + ":" + ms;
  }

  lemma SaveLinesOneLineEach(ts: seq<Task>)
    requires Storable(ts)
    ensures NoNewlines(SaveLines(ts))
  {
    var bs := Records(ts);
    forall i | 0 <= i < |bs|
      ensures NoNewlines(bs[i])
    {
      RecordOneLineEach(ts[i]);
    }
    ConcatNoNewlines(bs);
  }

  /** Saving and loading again gives back the same list, for at most MAX_TASKS one-line descriptions. */
  lemma RoundTrip(ts: seq<Task>)
    requires |ts| <= MAX_TASKS && Storable(ts)
    ensures Parse(Format(ts)) == ts
  {
    SaveLinesOneLineEach(ts);
    LinesUnlines(SaveLines(ts));
    BlocksConcat(Records(ts));
    ParseOfRecords(ts);
  }

  /** Delete, save and load: one task fewer, still numbered 1..N-1. */
  lemma DeleteThenReload(ts: seq<Task>, number: int)
    requires WellFormed(ts) && Storable(ts)
    requires Deleted(ts, number).Ok?
    ensures var us := Deleted(ts, number).value;
      && Parse(Format(us)) == us
      && |us| == |ts| - 1
      && DenselyNumbered(us)
  {
    var us := Deleted(ts, number).value;
    WellFormedPreserved(ts, "", 0, 0, number);
    assert Storable(us);
    RoundTrip(us);
  }

  // ---------------------------------------------------------------- loadTasks as written

  /**
   * The loop of loadTasks as written, over the blocks still to be read.
   * `eof` is the end-of-file flag, which only a read sets: the loop tests it
   * before reading, so it stops only after a read has met the end of the text.
   * Reading a block consumes the trailing newlines with the "\n" of "---\n",
   * so the read of the last block meets the end and sets the flag. When no
   * block is left and the flag is still clear, every fscanf of the body fails
   * at the end, and the record it would have filled, never initialised (here
   * `stale`), is stored all the same. A block that is not a task stops the
   * loop here, as in `TakeTasks`; what the C loop does with one is not modelled.
   */
  function LoopAsWritten(rs: seq<Option<Task>>, eof: bool, room: nat, stale: Task): (ts: seq<Task>)
    ensures |ts| <= room
  {
    if eof || room == 0 then []
    else if rs == [] then [stale]
    else if rs[0].None? then []
    else [rs[0].value] + LoopAsWritten(rs[1..], |rs| == 1, room - 1, stale)
  }

  /** Once at least one block is left to read, the loop as written reads what `TakeTasks` reads. */
  lemma {:induction false} LoopAsWrittenAgrees(rs: seq<Option<Task>>, room: nat, stale: Task)
    requires rs != []
    ensures LoopAsWritten(rs, false, room, stale) == TakeTasks(rs, room)
  {
    if room > 0 && rs[0].Some? && |rs| > 1 {
      LoopAsWrittenAgrees(rs[1..], room - 1, stale);
    }
  }

  /** loadTasks as written, on the text of an existing file. */
  function ParseAsWritten(text: string, stale: Task): (ts: seq<Task>)
    ensures |ts| <= MAX_TASKS
  {
    LoopAsWritten(Parsed(Blocks(Lines(text))), false, MAX_TASKS, stale)
  }

  /** The loop as written and the corrected reader differ exactly on a text without a whole block. */
  lemma AsWrittenDiffers(text: string, stale: Task)
    ensures Blocks(Lines(text)) == [] ==> ParseAsWritten(text, stale) == [stale] && Parse(text) == []
    ensures Blocks(Lines(text)) != [] ==> ParseAsWritten(text, stale) == Parse(text)
  {
    var rs := Parsed(Blocks(Lines(text)));
    if rs != [] {
      LoopAsWrittenAgrees(rs, MAX_TASKS, stale);
    }
  }

  /**
   * The store saved with no tasks (as on the first run, or after deleting the
   * last task) is an empty file, which the C loop reads back as one task.
   */
  lemma EmptyFileAsWritten(stale: Task)
    ensures Format([]) == ""
    ensures ParseAsWritten(Format([]), stale) == [stale]
    ensures Parse(Format([])) == []
  {
  }

  /** Any non-empty list that can be stored is read back as written by the C loop too. */
  lemma RoundTripAsWritten(ts: seq<Task>, stale: Task)
    requires 0 < |ts| <= MAX_TASKS && Storable(ts)
    ensures ParseAsWritten(Format(ts), stale) == ts
  {
    SaveLinesOneLineEach(ts);
    LinesUnlines(SaveLines(ts));
    BlocksConcat(Records(ts));
    AsWrittenDiffers(Format(ts), stale);
    RoundTrip(ts);
  }
}
