/**
 * The slow log (slowlog.c, slowlog.h): a newest-first list of the commands
 * whose execution took at least `slowlog-log-slower-than` microseconds,
 * bounded by `slowlog-max-len`, with long argument vectors and long string
 * arguments shortened before they are stored.
 *
 * Strings are sequences of characters, one per byte. The clock (`time(NULL)`)
 * is a parameter; replies are returned as values.
 */
module SlowLog {
  import opened Common

  /** At most this many arguments of a command are kept (slowlog.h). */
  const SLOWLOG_ENTRY_MAX_ARGC := 32
  /** String arguments are cut to this many bytes (slowlog.h). */
  const SLOWLOG_ENTRY_MAX_STRING := 128

  /**
   * A command argument: its bytes, and whether it is a string object with
   * the raw encoding (the only kind that gets shortened).
   */
  datatype Arg = Arg(rawString: bool, text: string)

  /** `slowlogEntry`: `argc` is `|argv|`. */
  datatype Entry = Entry(argv: seq<Arg>, id: int, duration: int, time: int)

  /** The decimal digit `d`. */
  function DigitChar(d: nat): (ch: char)
    requires d < 10
    ensures '0' <= ch <= '9' && ch as int - '0' as int == d
  {
    "0123456789"[d]
  }

  /** The value of a decimal digit. */
  function DigitValue(ch: char): nat
    requires '0' <= ch <= '9'
  {
    ch as int - '0' as int
  }

  /** `n` written in decimal, as `%d` and `%lu` print it. */
  function DecimalString(n: nat): (s: string)
    ensures s != [] && IsDecimal(s)
    decreases n
  {
    if n < 10 then [DigitChar(n)] else DecimalString(n / 10) + [DigitChar(n % 10)]
  }

  predicate IsDecimal(s: string)
  {
    forall i :: 0 <= i < |s| ==> '0' <= s[i] <= '9'
  }

  /** The number a string of decimal digits denotes. */
  function DecimalValue(s: string): nat
    requires IsDecimal(s)
  {
    if s == [] then 0 else DecimalValue(s[..|s| - 1]) * 10 + DigitValue(s[|s| - 1])
  }

  /** Reading back the printed number gives the number. */
  lemma {:induction false} DecimalRoundTrip(n: nat)
    ensures DecimalValue(DecimalString(n)) == n
    decreases n
  {
    var s := DecimalString(n);
    if n >= 10 {
      DecimalRoundTrip(n / 10);
      assert s[..|s| - 1] == DecimalString(n / 10);
    }
  }

  /** The note that replaces the last kept argument of a truncated vector, around a count. */
  function ArgumentsNote(digits: string): string
  {
    "... (" + digits + " more arguments)"
  }

  /** The note appended to a shortened string argument, around a count. */
  function BytesNote(digits: string): string
  {
    "... (" + digits + " more bytes)"
  }

  /** `"... (%d more arguments)"` printed with `n`. */
  function MoreArgumentsText(n: nat): string
  {
    ArgumentsNote(DecimalString(n))
  }

  /** `"... (%lu more bytes)"` printed with `n`. */
  function MoreBytesText(n: nat): string
  {
    BytesNote(DecimalString(n))
  }

  /** A stored argument: raw strings longer than the limit lose their tail, which is counted. */
  function TrimArg(a: Arg): (r: Arg)
    ensures r.rawString == a.rawString
    ensures !(a.rawString && |a.text| > SLOWLOG_ENTRY_MAX_STRING) ==> r == a
  {
    if a.rawString && |a.text| > SLOWLOG_ENTRY_MAX_STRING then
      Arg(true, a.text[..SLOWLOG_ENTRY_MAX_STRING] + MoreBytesText(|a.text| - SLOWLOG_ENTRY_MAX_STRING))
    else a
  }

  /** How many arguments of a command of `argc` arguments are stored. */
  function StoredArgc(argc: nat): (n: nat)
    ensures n <= SLOWLOG_ENTRY_MAX_ARGC && n <= argc
    ensures n == argc || n == SLOWLOG_ENTRY_MAX_ARGC
  {
    if argc > SLOWLOG_ENTRY_MAX_ARGC then SLOWLOG_ENTRY_MAX_ARGC else argc
  }

  /** The argument vector stored for `argv`: slot `j` of the entry. */
  function StoredArg(argv: seq<Arg>, j: nat): (r: Arg)
    requires j < StoredArgc(|argv|)
    ensures j < |argv|
    ensures |argv| <= SLOWLOG_ENTRY_MAX_ARGC || j < SLOWLOG_ENTRY_MAX_ARGC - 1 ==>
      r.rawString == argv[j].rawString && (!argv[j].rawString ==> r == argv[j])
    ensures |argv| > SLOWLOG_ENTRY_MAX_ARGC && j == SLOWLOG_ENTRY_MAX_ARGC - 1 ==>
      r == Arg(true, ArgumentsNote(DecimalString(|argv| - (SLOWLOG_ENTRY_MAX_ARGC - 1))))
  {
    var slargc := StoredArgc(|argv|);
    if slargc != |argv| && j == slargc - 1 then
      Arg(true, MoreArgumentsText(|argv| - slargc + 1))
    else TrimArg(argv[j])
  }

  /** The whole stored argument vector of a command. */
  function StoredArgs(argv: seq<Arg>): (r: seq<Arg>)
    ensures |r| == StoredArgc(|argv|)
    ensures forall j :: 0 <= j < |r| ==> r[j] == StoredArg(argv, j)
  {
    seq(StoredArgc(|argv|), j requires 0 <= j < StoredArgc(|argv|) => StoredArg(argv, j))
  }

  /**
   * `text` is `original` cut to 128 bytes and followed by a note counting,
   * in the decimal `digits`, the bytes cut off.
   */
  ghost predicate ShortenedFrom(text: string, original: string, digits: string)
  {
    && |original| > SLOWLOG_ENTRY_MAX_STRING
    && IsDecimal(digits)
    && text == original[..SLOWLOG_ENTRY_MAX_STRING] + BytesNote(digits)
    && DecimalValue(digits) + SLOWLOG_ENTRY_MAX_STRING == |original|
  }

  /**
   * A shortened string keeps exactly its first 128 bytes, followed by a
   * count from which the original length can be read back.
   */
  lemma TrimArgRecoversLength(a: Arg)
    requires a.rawString && |a.text| > SLOWLOG_ENTRY_MAX_STRING
    ensures exists digits :: ShortenedFrom(TrimArg(a).text, a.text, digits)
  {
    var digits := DecimalString(|a.text| - SLOWLOG_ENTRY_MAX_STRING);
    DecimalRoundTrip(|a.text| - SLOWLOG_ENTRY_MAX_STRING);
    assert ShortenedFrom(TrimArg(a).text, a.text, digits);
  }

  /**
   * A vector longer than 32 arguments keeps its first 31 (each trimmed) and
   * ends with a note from which the original argument count can be read
   * back: the note counts itself among the dropped arguments.
   */
  lemma StoredArgsTruncated(argv: seq<Arg>)
    requires |argv| > SLOWLOG_ENTRY_MAX_ARGC
    ensures StoredArgc(|argv|) == SLOWLOG_ENTRY_MAX_ARGC
    ensures forall j :: 0 <= j < SLOWLOG_ENTRY_MAX_ARGC - 1 ==> StoredArg(argv, j) == TrimArg(argv[j])
    ensures exists digits ::
      && IsDecimal(digits)
      && StoredArg(argv, SLOWLOG_ENTRY_MAX_ARGC - 1) == Arg(true, ArgumentsNote(digits))
      && DecimalValue(digits) + SLOWLOG_ENTRY_MAX_ARGC - 1 == |argv|
  {
    var digits := DecimalString(|argv| - SLOWLOG_ENTRY_MAX_ARGC + 1);
    assert StoredArg(argv, SLOWLOG_ENTRY_MAX_ARGC - 1) == Arg(true, ArgumentsNote(digits));
    assert DecimalValue(digits) + SLOWLOG_ENTRY_MAX_ARGC - 1 == |argv| by {
      DecimalRoundTrip(|argv| - SLOWLOG_ENTRY_MAX_ARGC + 1);
    }
  }

  /** A vector of at most 32 arguments is stored whole, each argument trimmed. */
  lemma StoredArgsComplete(argv: seq<Arg>)
    requires |argv| <= SLOWLOG_ENTRY_MAX_ARGC
    ensures StoredArgc(|argv|) == |argv|
    ensures forall j :: 0 <= j < |argv| ==> StoredArg(argv, j) == TrimArg(argv[j])
  {
  }

  /** Entry ids strictly decrease from the head (newest) to the tail. */
  ghost predicate NewestFirst(entries: seq<Entry>)
  {
    forall i, j :: 0 <= i < j < |entries| ==> entries[i].id > entries[j].id
  }

  /**
   * The first `count` entries from the head, as SLOWLOG GET sends them: the
   * whole log when `count` is larger than the log, and also when it is
   * negative, since the loop's counter then never reaches zero.
   */
  function GetSelection(entries: seq<Entry>, count: int): (r: seq<Entry>)
    ensures 0 <= count <= |entries| ==> |r| == count
    ensures (count < 0 || count > |entries|) ==> r == entries
    ensures r <= entries
  {
    if 0 <= count <= |entries| then entries[..count] else entries
  }

  /** A reply of the SLOWLOG command. */
  datatype Reply =
    | Ok
    | Length(n: nat)
    | Entries(sent: seq<Entry>)
    /** The count argument of GET is not an integer (`getLongFromObjectOrReply`). */
    | NotAnInteger
    | Error(message: string)

  const UnknownSubcommandError := "Unknown SLOWLOG subcommand or wrong # of args. Try GET, RESET, LEN."

  /** `c` in lower case (ASCII letters only). */
  function LowerChar(c: char): char
  {
    if 'A' <= c <= 'Z' then (c as int - 'A' as int + 'a' as int) as char else c
  }

  /** Case-insensitive equality of two strings (`strcasecmp(a, b) == 0`). */
  predicate EqualsIgnoreCase(a: string, b: string)
  {
    |a| == |b| && forall i :: 0 <= i < |a| ==> LowerChar(a[i]) == LowerChar(b[i])
  }

  /** The server's slow log and its settings. */
  class Log {
    /** `server.slowlog`, head (newest) first. */
    var entries: seq<Entry>
    /** `server.slowlog_entry_id`: the id the next entry gets. */
    var nextId: int
    /** `server.slowlog_log_slower_than`; negative disables the log. */
    var logSlowerThan: int
    /** `server.slowlog_max_len`. */
    var maxLen: nat

    /** Ids strictly decrease towards the tail, and all are below the next id. */
    ghost predicate Valid()
      reads this
    {
      NewestFirst(entries) && forall i :: 0 <= i < |entries| ==> entries[i].id < nextId
    }

    /** `slowlogInit`, with the two settings as read from the configuration. */
    constructor (slowerThan: int, maxLength: nat)
      ensures Valid()
      ensures entries == [] && nextId == 0
      ensures logSlowerThan == slowerThan && maxLen == maxLength
    {
      entries, nextId := [], 0;
      logSlowerThan, maxLen := slowerThan, maxLength;
    }

    /**
     * `slowlogCreateEntry`: the stored argument vector, the duration, the
     * time `now`, and the current entry id, which is then incremented.
     */
    method CreateEntry(argv: seq<Arg>, duration: int, now: int) returns (e: Entry)
      modifies this
      ensures e == Entry(StoredArgs(argv), old(nextId), duration, now)
      ensures nextId == old(nextId) + 1
      ensures entries == old(entries) && logSlowerThan == old(logSlowerThan) && maxLen == old(maxLen)
    {
      var argc := |argv|;
      var slargc := argc;
      if slargc > SLOWLOG_ENTRY_MAX_ARGC {
        slargc := SLOWLOG_ENTRY_MAX_ARGC;
      }
      var stored: seq<Arg> := [];
      var j := 0;
      while j < slargc
        invariant j <= slargc == StoredArgc(argc)
        invariant |stored| == j && forall i :: 0 <= i < j ==> stored[i] == StoredArg(argv, i)
      {
        if slargc != argc && j == slargc - 1 {
          stored := stored + [Arg(true, MoreArgumentsText(argc - slargc + 1))];
        } else {
          if argv[j].rawString && |argv[j].text| > SLOWLOG_ENTRY_MAX_STRING {
            var s := argv[j].text[..SLOWLOG_ENTRY_MAX_STRING];
            s := s + MoreBytesText(|argv[j].text| - SLOWLOG_ENTRY_MAX_STRING);
            stored := stored + [Arg(true, s)];
          } else {
            stored := stored + [argv[j]];
          }
        }
        j := j + 1;
      }
      assert stored == StoredArgs(argv);
      e := Entry(stored, nextId, duration, now);
      nextId := nextId + 1;
    }

    /**
     * `slowlogPushEntryIfNeeded`: nothing happens while the log is disabled;
     * otherwise a command at least as slow as the threshold is pushed at the
     * head, then the oldest entries are dropped until the length is within
     * the maximum.
     */
    method PushEntryIfNeeded(argv: seq<Arg>, duration: int, now: int)
      requires Valid()
      modifies this
      ensures Valid()
      ensures old(logSlowerThan) < 0 ==> entries == old(entries) && nextId == old(nextId)
      ensures 0 <= old(logSlowerThan) <= duration ==>
        && nextId == old(nextId) + 1
        && entries == ([Entry(StoredArgs(argv), old(nextId), duration, now)] + old(entries))[..Min(|old(entries)| + 1, maxLen)]
      ensures 0 <= old(logSlowerThan) && duration < old(logSlowerThan) ==>
        entries == old(entries)[..Min(|old(entries)|, maxLen)] && nextId == old(nextId)
      ensures old(logSlowerThan) >= 0 ==> |entries| <= maxLen
      ensures logSlowerThan == old(logSlowerThan) && maxLen == old(maxLen)
    {
      if logSlowerThan < 0 {
        return;
      }
      if duration >= logSlowerThan {
        var e := CreateEntry(argv, duration, now);
        entries := [e] + entries;
      }
      ghost var full, id := entries, nextId;
      while |entries| > maxLen
        invariant Valid()
        invariant |entries| <= |full| && entries == full[..|entries|]
        invariant |entries| >= Min(|full|, maxLen)
        invariant logSlowerThan == old(logSlowerThan) && maxLen == old(maxLen) && nextId == id
        decreases |entries|
      {
        entries := entries[..|entries| - 1];
      }
    }

    /** `slowlogReset`: entries are dropped from the tail until none is left. */
    method Reset()
      requires Valid()
      modifies this
      ensures Valid() && entries == []
      ensures nextId == old(nextId) && logSlowerThan == old(logSlowerThan) && maxLen == old(maxLen)
    {
      while |entries| > 0
        invariant Valid()
        invariant nextId == old(nextId) && logSlowerThan == old(logSlowerThan) && maxLen == old(maxLen)
        decreases |entries|
      {
        entries := entries[..|entries| - 1];
      }
    }

    /** The GET loop: up to `count` entries from the head, newest first. */
    method Get(count: int) returns (sent: seq<Entry>)
      ensures sent == GetSelection(entries, count)
    {
      var left := count;
      var i := 0;
      sent := [];
      while left != 0 && i < |entries|
        invariant 0 <= i <= |entries| && sent == entries[..i]
        invariant left == count - i
        invariant count >= 0 ==> i <= count
        decreases |entries| - i
      {
        left := left - 1;
        sent := sent + [entries[i]];
        i := i + 1;
      }
    }

    /**
     * `slowlogCommand`: RESET, LEN and GET [count] (sub-command names are
     * case-insensitive); `parseLong` stands for `getLongFromObjectOrReply`.
     */
    method Command(argv: seq<string>, parseLong: string -> Option<int>) returns (reply: Reply)
      requires Valid()
      modifies this
      ensures Valid()
      ensures |argv| == 2 && EqualsIgnoreCase(argv[1], "reset") ==> reply == Ok && entries == []
      ensures !(|argv| == 2 && EqualsIgnoreCase(argv[1], "reset")) ==> entries == old(entries)
      ensures |argv| == 2 && EqualsIgnoreCase(argv[1], "len") ==> reply == Length(|entries|)
      ensures (|argv| == 2 || |argv| == 3) && EqualsIgnoreCase(argv[1], "get") ==>
        if |argv| == 3 && parseLong(argv[2]).None? then reply == NotAnInteger
        else reply == Entries(GetSelection(entries, if |argv| == 3 then parseLong(argv[2]).value else 10))
      ensures
        var known := (|argv| == 2 && (EqualsIgnoreCase(argv[1], "reset") || EqualsIgnoreCase(argv[1], "len")))
          || ((|argv| == 2 || |argv| == 3) && EqualsIgnoreCase(argv[1], "get"));
        !known ==> reply == Error(UnknownSubcommandError)
      ensures nextId == old(nextId) && logSlowerThan == old(logSlowerThan) && maxLen == old(maxLen)
    {
      if |argv| == 2 && EqualsIgnoreCase(argv[1], "reset") {
        Reset();
        reply := Ok;
      } else if |argv| == 2 && EqualsIgnoreCase(argv[1], "len") {
        assert !EqualsIgnoreCase(argv[1], "get") by {
          assert LowerChar(argv[1][0]) == LowerChar("len"[0]) == 'l';
        }
        reply := Length(|entries|);
      } else if (|argv| == 2 || |argv| == 3) && EqualsIgnoreCase(argv[1], "get") {
        var count := 10;
        if |argv| == 3 {
          var parsed := parseLong(argv[2]);
          if parsed.None? {
            return NotAnInteger;
          }
          count := parsed.value;
        }
        var sent := Get(count);
        reply := Entries(sent);
      } else {
        reply := Error(UnknownSubcommandError);
      }
    }
  }

  function Min(a: int, b: int): int
  {
    if a < b then a else b
  }
}
