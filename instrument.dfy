/** The communication core of an SCPI instrument (class Instrument): the
    data-format state and its negotiation command, the session timeout and
    its raise-then-restore discipline, the dispatch between string and
    IEEE-block transfers, the `*IDN?` parser and the clean-up of query
    answers. All I/O goes through the abstract session of module Transport. */
module Instruments {
  import opened Outcomes
  import opened Strings
  import opened Transport

  /** Instrument.DataFormatChoices. */
  datatype DataFormat = Ascii | Int32 | Real32 | Real64

  /** The name of an enum member, as `ToString()` prints it. */
  function FormatName(f: DataFormat): string
  {
    match f
    case Ascii => "ASCII"
    case Int32 => "INT_32"
    case Real32 => "REAL_32"
    case Real64 => "REAL_64"
  }

  /** The command the DataFormat setter sends: the member name with `_` turned
      into `,`, which is the argument of `FORM:DATA` that selects the format. */
  function FormatCommand(f: DataFormat): (c: string)
    ensures c == "FORM:DATA " + FormatArgument(f)
  {
    FormatArgumentOfName(f);
    "FORM:DATA " + ReplaceChar(FormatName(f), '_', ',')
  }

  /** The argument of `FORM:DATA` that selects each format. */
  function FormatArgument(f: DataFormat): string
  {
    match f
    case Ascii => "ASCII"
    case Int32 => "INT,32"
    case Real32 => "REAL,32"
    case Real64 => "REAL,64"
  }

  /** Turning `_` into `,` in the enum name gives the argument of each format. */
  lemma FormatArgumentOfName(f: DataFormat)
    ensures ReplaceChar(FormatName(f), '_', ',') == FormatArgument(f)
  {
    match f
    case Ascii =>
      ReplaceCharAbsent(FormatName(f), '_', ',');
    case Int32 =>
      ReplaceCharOnce("INT", "32", '_', ',');
    case Real32 =>
      ReplaceCharOnce("REAL", "32", '_', ',');
    case Real64 =>
      ReplaceCharOnce("REAL", "64", '_', ',');
  }

  /** Distinct formats have distinct arguments. */
  lemma FormatArgumentInjective(f: DataFormat, g: DataFormat)
    requires f != g
    ensures FormatArgument(f) != FormatArgument(g)
  {
    if |FormatArgument(f)| == |FormatArgument(g)| {
      assert FormatArgument(f)[5] != FormatArgument(g)[5];
    }
  }

  /** Distinct formats are negotiated with distinct commands. */
  lemma FormatCommandInjective(f: DataFormat, g: DataFormat)
    ensures FormatCommand(f) == FormatCommand(g) <==> f == g
  {
    if f != g {
      var p := "FORM:DATA ";
      FormatArgumentInjective(f, g);
      PrefixKeepsDifference(p, FormatArgument(f), FormatArgument(g));
    }
  }

  /** The read ReadBlock makes in each format. */
  function BlockRead(f: DataFormat): Op
  {
    match f
    case Int32 => ReadBinaryBlock(I4)
    case Real32 => ReadBinaryBlock(R4)
    case Real64 => ReadBinaryBlock(R8)
    case Ascii => ReadText
  }

  /** The read ReadBinary makes in each format. */
  function NumberRead(f: DataFormat): Op
  {
    match f
    case Int32 => ReadNumber(I4)
    case Real32 => ReadNumber(R4)
    case Real64 => ReadNumber(R8)
    case Ascii => ReadText
  }

  /** The two reads agree: a string read in ASCII, reads of the same element type otherwise. */
  lemma ReadsFollowFormat(f: DataFormat)
    ensures BlockRead(f) == ReadText <==> f == Ascii
    ensures NumberRead(f) == ReadText <==> f == Ascii
    ensures f != Ascii ==> BlockRead(f).ReadBinaryBlock? && NumberRead(f) == ReadNumber(BlockRead(f).kind)
  {
  }

  /** The `dynamic` value ReadBlock and ReadBinary return: the raw answer tagged by the read that got it. */
  datatype Reading = Text(text: string) | Block(kind: NumberType, raw: string) | Number(kind: NumberType, raw: string)

  function AsReading(op: Op, raw: string): Reading
  {
    match op
    case ReadBinaryBlock(k) => Block(k, raw)
    case ReadNumber(k) => Number(k, raw)
    case _ => Text(raw)
  }

  /** What a read of kind `op` returns on a session that is `open`, with `replies` queued. */
  function ReadResult(op: Op, open: bool, replies: seq<Reply>, timeoutMs: int): (r: Result<Reading>)
    ensures !open ==> r == Err(NotConnected)
    ensures open ==> (r.Ok? <==> Answers(replies, timeoutMs))
  {
    if !open then Err(NotConnected)
    else match Receive(replies, timeoutMs)
      case Err(e) => Err(e)
      case Ok(s) => Ok(AsReading(op, s))
  }

  /** The write ScpiCommand and the queries make: a plain string when there is no data, a block otherwise. */
  function WriteOp(command: string, data: Option<seq<byte>>): (op: Op)
    ensures op.IsWrite() && op.command == command
    ensures op.WriteBlock? <==> data.Some?
    ensures data.Some? ==> op.data == data.value
  {
    match data
    case None => WriteText(command)
    case Some(d) => WriteBlock(command, d)
  }

  /** The read a query makes after its write: a string read without data, ReadBlock's read with data. */
  function QueryRead(data: Option<seq<byte>>, f: DataFormat): (op: Op)
    ensures !op.IsWrite()
    ensures op == ReadText <==> data.None? || f == Ascii
    ensures data.Some? ==> op == BlockRead(f)
  {
    if data.None? then ReadText else BlockRead(f)
  }

  /** The timeout in force inside WaitForOperationComplete(timeoutMs) and ReadString(timeoutMs). */
  function RaisedTimeout(current: int, requested: int): (t: int)
    ensures t >= current && t >= requested
    ensures t == current || t == requested
  {
    if current < requested then requested else current
  }

  const OPEN_TIMEOUT_MS: int := 2000
  const OPC_QUERY: string := "*OPC?"
  const IDN_QUERY: string := "*IDN?"

  /** The characters CleanScpiQuery trims before its white-space trim. */
  const SCPI_JUNK: set<char> := {'"', ' ', '\n', '\r'}

  /** `CleanScpiQuery(s)`: trim quotes, spaces and line ends, then white space.
      The result is a contiguous piece of the input with only junk and white
      space cut away, and no white space left at either end. */
  function CleanScpiQuery(s: string): (r: string)
    ensures TrimmedFrom(r, s, SCPI_JUNK + WHITE_SPACE)
    ensures r == [] || (r[0] !in WHITE_SPACE && r[|r| - 1] !in WHITE_SPACE)
  {
    TrimTwiceShape(s, SCPI_JUNK, WHITE_SPACE);
    Trim(Trim(s, SCPI_JUNK), WHITE_SPACE)
  }

  /** A quoted answer followed by a line end comes back as the text between
      the quotes, when that text's first and last characters are neither a
      quote, a space, a line end nor white space. */
  lemma CleanScpiQueryQuoted(s: string)
    requires s != [] && s[0] !in SCPI_JUNK + WHITE_SPACE && s[|s| - 1] !in SCPI_JUNK + WHITE_SPACE
    ensures CleanScpiQuery("\"" + s + "\"\n") == s
  {
    var q := "\"" + s + "\"\n";
    assert q[1..|s| + 1] == s;
    TrimAt(q, SCPI_JUNK, 1, |s| + 1);
    TrimAt(s, WHITE_SPACE, 0, |s|);
  }

  /** Text whose first and last characters are neither a quote, a space, a
      line end nor white space is left alone. */
  lemma CleanScpiQueryKeeps(s: string)
    requires s != [] && s[0] !in SCPI_JUNK + WHITE_SPACE && s[|s| - 1] !in SCPI_JUNK + WHITE_SPACE
    ensures CleanScpiQuery(s) == s
  {
    TrimAt(s, SCPI_JUNK, 0, |s|);
    TrimAt(s, WHITE_SPACE, 0, |s|);
  }

  // ------------------------------------------------------------ identification

  /** Instrument.Header: the fields of the `*IDN?` answer. */
  datatype Header = Header(company: string, model: string, serial: string, firmware: string)

  /** The `*IDN?` answer cut at every comma, with all spaces removed from field 1 on. */
  function IdnFields(reply: string): (fields: seq<string>)
    ensures |fields| == Count(reply, ',') + 1
  {
    var parts := Split(reply, ",");
    SplitCount(reply, ',');
    seq(|parts|, i requires 0 <= i < |parts| => if i == 0 then parts[0] else RemoveChar(parts[i], ' '))
  }

  /** The four assignments of DownloadHeader, as far as the fields reach. */
  function AssignIdn(h: Header, fields: seq<string>): Header
  {
    var h1 := if |fields| > 0 then h.(company := fields[0]) else h;
    var h2 := if |fields| > 1 then h1.(model := fields[1]) else h1;
    var h3 := if |fields| > 2 then h2.(serial := fields[2]) else h2;
    if |fields| > 3 then h3.(firmware := fields[3]) else h3
  }

  /** The identification an `*IDN?` answer gives, or the index error of one with fewer than four fields. */
  function ParseIdn(reply: string): (r: Result<Header>)
    ensures r.Ok? <==> Count(reply, ',') >= 3
    ensures r.Err? ==> r.error == IndexOutOfRange
  {
    var f := IdnFields(reply);
    if |f| < 4 then Err(IndexOutOfRange) else Ok(Header(f[0], f[1], f[2], f[3]))
  }

  /** The company is field 0 verbatim; model, serial and firmware are fields 1 to 3 with every space removed. */
  lemma ParseIdnFields(reply: string)
    requires ParseIdn(reply).Ok?
    ensures var h := ParseIdn(reply).value; var parts := Split(reply, ",");
      && h.company == parts[0]
      && h.model == RemoveChar(parts[1], ' ') && ' ' !in h.model
      && h.serial == RemoveChar(parts[2], ' ') && ' ' !in h.serial
      && h.firmware == RemoveChar(parts[3], ' ') && ' ' !in h.firmware
  {
  }

  /** When it succeeds, the parse replaces all four fields, whatever they held before. */
  lemma AssignIdnWhole(h: Header, reply: string)
    requires ParseIdn(reply).Ok?
    ensures AssignIdn(h, IdnFields(reply)) == ParseIdn(reply).value
  {
  }

  /** Fields after the fourth are ignored. */
  lemma ParseIdnIgnoresExtraFields(reply: string, extra: string)
    requires ParseIdn(reply).Ok?
    ensures ParseIdn(reply + "," + extra) == ParseIdn(reply)
  {
    SplitAppend(reply, ',', extra);
    assert reply + "," + extra == reply + [','] + extra;
    var parts := Split(reply, ",");
    var longer := Split(reply + "," + extra, ",");
    assert longer[..|parts|] == parts;
    assert forall i :: 0 <= i < 4 ==> IdnFields(reply + "," + extra)[i] == IdnFields(reply)[i];
  }

  /** Four comma-free fields joined by commas split back into those fields. */
  lemma SplitOfFour(a: string, b: string, c: string, d: string)
    requires ',' !in a && ',' !in b && ',' !in c && ',' !in d
    ensures Split(a + "," + b + "," + c + "," + d, ",") == [a, b, c, d]
  {
    assert a + "," + b + "," + c + "," + d == (a + [','] + b + [','] + c) + [','] + d;
    SplitAppend(a + [','] + b + [','] + c, ',', d);
    SplitAppend(a + [','] + b, ',', c);
    SplitAppend(a, ',', b);
    SplitWithout(a, ',');
    SplitWithout(b, ',');
    SplitWithout(c, ',');
    SplitWithout(d, ',');
  }

  /** Four comma-free fields joined by commas parse into those fields, spaces removed from the last three. */
  lemma ParseIdnOfFields(a: string, b: string, c: string, d: string)
    requires ',' !in a && ',' !in b && ',' !in c && ',' !in d
    ensures ParseIdn(a + "," + b + "," + c + "," + d)
         == Ok(Header(a, RemoveChar(b, ' '), RemoveChar(c, ' '), RemoveChar(d, ' ')))
  {
    var reply := a + "," + b + "," + c + "," + d;
    SplitOfFour(a, b, c, d);
    var f := IdnFields(reply);
    assert f[0] == a && f[1] == RemoveChar(b, ' ') && f[2] == RemoveChar(c, ' ') && f[3] == RemoveChar(d, ' ');
  }

  /** Removing the one leading space of a field. */
  lemma RemoveLeadingSpace(s: string)
    requires ' ' !in s
    ensures RemoveChar([' '] + s, ' ') == s
  {
    assert ([' '] + s)[1..] == s;
    RemoveCharAbsent(s, ' ');
  }

  /** An answer in the usual `company, model, serial, firmware` layout (fields
      after ", " separators, as an N5182A gives them) parses into exactly those fields. */
  lemma ParseIdnCommaSpace(company: string, model: string, serial: string, firmware: string)
    requires ',' !in company
    requires ',' !in model && ' ' !in model
    requires ',' !in serial && ' ' !in serial
    requires ',' !in firmware && ' ' !in firmware
    ensures ParseIdn(company + ", " + model + ", " + serial + ", " + firmware)
         == Ok(Header(company, model, serial, firmware))
  {
    assert company + ", " + model + ", " + serial + ", " + firmware
        == company + "," + ([' '] + model) + "," + ([' '] + serial) + "," + ([' '] + firmware);
    ParseIdnOfFields(company, [' '] + model, [' '] + serial, [' '] + firmware);
    RemoveLeadingSpace(model);
    RemoveLeadingSpace(serial);
    RemoveLeadingSpace(firmware);
  }

  /** The loop of DownloadHeader: the answer cut at commas into an array whose
      entries from index 1 on then lose their spaces in place. */
  method IdnFieldArray(reply: string) returns (parsed: array<string>)
    ensures fresh(parsed) && parsed[..] == IdnFields(reply)
  {
    var fields := Split(reply, ",");
    parsed := new string[|fields|](i requires 0 <= i < |fields| => fields[i]);
    var i := 1;
    while i < parsed.Length
      invariant 1 <= i <= parsed.Length
      invariant forall k :: 0 <= k < parsed.Length ==>
        parsed[k] == (if 1 <= k < i then RemoveChar(fields[k], ' ') else fields[k])
    {
      parsed[i] := RemoveChar(parsed[i], ' ');
      i := i + 1;
    }
  }

  // ------------------------------------------------------------ the instrument

  /** An instrument behind one VISA session. */
  class Instrument {
    /** A session is attached (the source's `io.IO` is set). */
    var open: bool
    var address: string
    /** The session's I/O timeout in ms (the source's `io.IO.Timeout`). */
    var timeout: int
    var dataFormat: DataFormat
    var idn: Header
    /** Every call made into the session, oldest first. */
    var log: seq<IoEvent>
    /** The device's answers still to be read, in order. */
    var replies: seq<Reply>

    /** A new instrument, not yet connected, whose device will answer with `script`. */
    constructor (script: seq<Reply>)
      ensures !open && address == "" && dataFormat == Ascii && idn == Header("", "", "", "")
      ensures log == [] && replies == script
    {
      open := false;
      address := "";
      timeout := 0;
      dataFormat := Ascii;
      idn := Header("", "", "", "");
      log := [];
      replies := script;
    }

    /** `Connect(inputAddress)`; `reachable` says whether VISA manages to open the address. */
    method Connect(inputAddress: string, reachable: bool) returns (r: Outcome)
      modifies this`address, this`open, this`timeout
      ensures address == inputAddress && open == reachable
      ensures reachable ==> r == Pass && timeout == OPEN_TIMEOUT_MS
      ensures !reachable ==> r == Fail(ConnectFailed("* Error connecting to: " + inputAddress)) && timeout == old(timeout)
    {
      address := inputAddress;
      if reachable {
        open := true;
        timeout := OPEN_TIMEOUT_MS;
        r := Pass;
      } else {
        open := false;
        r := Fail(ConnectFailed("* Error connecting to: " + inputAddress));
      }
    }

    /** One write into the session. */
    method Send(op: Op) returns (r: Outcome)
      requires op.IsWrite()
      modifies this`log
      ensures r == (if open then Pass else Fail(NotConnected))
      ensures log == old(log) + (if open then [IoEvent(op, timeout)] else [])
    {
      if !open {
        return Fail(NotConnected);
      }
      log := log + [IoEvent(op, timeout)];
      r := Pass;
    }

    /** One read from the session. */
    method Fetch(op: Op) returns (r: Result<string>)
      requires !op.IsWrite()
      modifies this`log, this`replies
      ensures r == (if open then Receive(old(replies), timeout) else Err(NotConnected))
      ensures log == old(log) + (if open then [IoEvent(op, timeout)] else [])
      ensures replies == (if open then Remaining(old(replies), timeout) else old(replies))
    {
      if !open {
        return Err(NotConnected);
      }
      log := log + [IoEvent(op, timeout)];
      r := Receive(replies, timeout);
      replies := Remaining(replies, timeout);
    }

    /** The getter of `Timeout`. */
    method GetTimeout() returns (r: Result<int>)
      ensures r == (if open then Ok(timeout) else Err(NotConnected))
    {
      r := if open then Ok(timeout) else Err(NotConnected);
    }

    /** The setter of `Timeout`. */
    method SetTimeout(ms: int) returns (r: Outcome)
      modifies this`timeout
      ensures r == (if open then Pass else Fail(NotConnected))
      ensures timeout == (if open then ms else old(timeout))
    {
      if !open {
        return Fail(NotConnected);
      }
      timeout := ms;
      r := Pass;
    }

    /** The setter of `DataFormat`: store the format, then negotiate it. */
    method SetDataFormat(value: DataFormat) returns (r: Outcome)
      modifies this`dataFormat, this`log
      ensures dataFormat == value
      ensures r == (if open then Pass else Fail(NotConnected))
      ensures log == old(log) + (if open then [IoEvent(WriteText(FormatCommand(value)), timeout)] else [])
    {
      dataFormat := value;
      var format := ReplaceChar(FormatName(value), '_', ',');
      r := ScpiCommand("FORM:DATA " + format, None);
    }

    method ScpiWriteString(command: string) returns (r: Outcome)
      modifies this`log
      ensures r == (if open then Pass else Fail(NotConnected))
      ensures log == old(log) + (if open then [IoEvent(WriteText(command), timeout)] else [])
    {
      r := Send(WriteText(command));
    }

    method ScpiWriteIeeeBlock(command: string, data: seq<byte>) returns (r: Outcome)
      modifies this`log
      ensures r == (if open then Pass else Fail(NotConnected))
      ensures log == old(log) + (if open then [IoEvent(WriteBlock(command, data), timeout)] else [])
    {
      r := Send(WriteBlock(command, data));
    }

    /** `ScpiCommand(command, data)`: one write, a block exactly when there is data. */
    method ScpiCommand(command: string, data: Option<seq<byte>>) returns (r: Outcome)
      modifies this`log
      ensures r == (if open then Pass else Fail(NotConnected))
      ensures log == old(log) + (if open then [IoEvent(WriteOp(command, data), timeout)] else [])
    {
      if data.None? {
        r := ScpiWriteString(command);
      } else {
        r := ScpiWriteIeeeBlock(command, data.value);
      }
    }

    /** `ReadString()`: one string read. */
    method ReadString() returns (r: Result<string>)
      modifies this`log, this`replies
      ensures r == (if open then Receive(old(replies), timeout) else Err(NotConnected))
      ensures log == old(log) + (if open then [IoEvent(ReadText, timeout)] else [])
      ensures replies == (if open then Remaining(old(replies), timeout) else old(replies))
    {
      r := Fetch(ReadText);
    }

    /** `ReadString(timeoutMs)`: one string read under a timeout raised to at
        least `timeoutMs`; the old timeout comes back only when the read succeeds. */
    method ReadStringWithin(timeoutMs: int) returns (r: Result<string>)
      modifies this`timeout, this`log, this`replies
      ensures !old(open) ==> r == Err(NotConnected) && timeout == old(timeout) && log == old(log) && replies == old(replies)
      ensures old(open) ==> var t := RaisedTimeout(old(timeout), timeoutMs);
        && log == old(log) + [IoEvent(ReadText, t)]
        && r == Receive(old(replies), t)
        && replies == Remaining(old(replies), t)
        && timeout == (if r.Ok? then old(timeout) else t)
      ensures timeout >= old(timeout)
    {
      var org := GetTimeout();
      if org.Err? {
        return Err(org.error);
      }
      var orgTimeout := org.value;
      if orgTimeout < timeoutMs {
        var raised := SetTimeout(timeoutMs);
      }
      r := Fetch(ReadText);
      if r.Err? {
        return;
      }
      if orgTimeout < timeoutMs {
        var restored := SetTimeout(orgTimeout);
      }
    }

    /** `ReadBlock()`: the read the current format calls for. */
    method ReadBlock() returns (r: Result<Reading>)
      modifies this`log, this`replies
      ensures r == ReadResult(BlockRead(dataFormat), open, old(replies), timeout)
      ensures log == old(log) + (if open then [IoEvent(BlockRead(dataFormat), timeout)] else [])
      ensures replies == (if open then Remaining(old(replies), timeout) else old(replies))
    {
      var op;
      if dataFormat == Int32 {
        op := ReadBinaryBlock(I4);
      } else if dataFormat == Real32 {
        op := ReadBinaryBlock(R4);
      } else if dataFormat == Real64 {
        op := ReadBinaryBlock(R8);
      } else {
        op := ReadText;
      }
      var raw := Fetch(op);
      r := if raw.Ok? then Ok(AsReading(op, raw.value)) else Err(raw.error);
    }

    /** `ReadBinary()`: the number read the current format calls for (a string read in ASCII). */
    method ReadBinary() returns (r: Result<Reading>)
      modifies this`log, this`replies
      ensures r == ReadResult(NumberRead(dataFormat), open, old(replies), timeout)
      ensures log == old(log) + (if open then [IoEvent(NumberRead(dataFormat), timeout)] else [])
      ensures replies == (if open then Remaining(old(replies), timeout) else old(replies))
    {
      var op;
      if dataFormat == Int32 {
        op := ReadNumber(I4);
      } else if dataFormat == Real32 {
        op := ReadNumber(R4);
      } else if dataFormat == Real64 {
        op := ReadNumber(R8);
      } else {
        op := ReadText;
      }
      var raw := Fetch(op);
      r := if raw.Ok? then Ok(AsReading(op, raw.value)) else Err(raw.error);
    }

    /** `WaitForOperationComplete()`: send `*OPC?` and read the answer. */
    method WaitForOperationComplete() returns (r: Outcome)
      modifies this`log, this`replies
      ensures !old(open) ==> r == Fail(NotConnected) && log == old(log) && replies == old(replies)
      ensures old(open) ==>
        && log == old(log) + [IoEvent(WriteText(OPC_QUERY), timeout), IoEvent(NumberRead(dataFormat), timeout)]
        && r == (if Answers(old(replies), timeout) then Pass else Fail(BusTimeout))
        && replies == Remaining(old(replies), timeout)
    {
      r := ScpiCommand(OPC_QUERY, None);
      if r.Fail? {
        return;
      }
      var answer := ReadBinary();
      r := if answer.Ok? then Pass else Fail(answer.error);
    }

    /** `WaitForOperationComplete(timeoutMs)`: the same under a timeout raised
        to at least `timeoutMs`; the old timeout comes back only on success. */
    method WaitForOperationCompleteWithin(timeoutMs: int) returns (r: Outcome)
      modifies this`timeout, this`log, this`replies
      ensures !old(open) ==> r == Fail(NotConnected) && timeout == old(timeout) && log == old(log) && replies == old(replies)
      ensures old(open) ==> var t := RaisedTimeout(old(timeout), timeoutMs);
        && log == old(log) + [IoEvent(WriteText(OPC_QUERY), t), IoEvent(NumberRead(dataFormat), t)]
        && r == (if Answers(old(replies), t) then Pass else Fail(BusTimeout))
        && replies == Remaining(old(replies), t)
        && timeout == (if r.Pass? then old(timeout) else t)
      ensures timeout >= old(timeout)
    {
      var org := GetTimeout();
      if org.Err? {
        return Fail(org.error);
      }
      var orgTimeout := org.value;
      if orgTimeout < timeoutMs {
        var raised := SetTimeout(timeoutMs);
      }
      r := WaitForOperationComplete();
      if r.Fail? {
        return;
      }
      if orgTimeout < timeoutMs {
        var restored := SetTimeout(orgTimeout);
      }
    }

    /** `ScpiQueryString(command)`: a string write, then a string read. */
    method ScpiQueryString(command: string) returns (r: Result<string>)
      modifies this`log, this`replies
      ensures !old(open) ==> r == Err(NotConnected) && log == old(log) && replies == old(replies)
      ensures old(open) ==>
        && log == old(log) + [IoEvent(WriteText(command), timeout), IoEvent(ReadText, timeout)]
        && r == Receive(old(replies), timeout)
        && replies == Remaining(old(replies), timeout)
    {
      var sent := Send(WriteText(command));
      if sent.Fail? {
        return Err(sent.error);
      }
      r := ReadString();
    }

    /** `ScpiQueryIeeeBlock(command, data)`: the write ScpiCommand would make, then ReadBlock. */
    method ScpiQueryIeeeBlock(command: string, data: Option<seq<byte>>) returns (r: Result<Reading>)
      modifies this`log, this`replies
      ensures !old(open) ==> r == Err(NotConnected) && log == old(log) && replies == old(replies)
      ensures old(open) ==>
        && log == old(log) + [IoEvent(WriteOp(command, data), timeout), IoEvent(BlockRead(dataFormat), timeout)]
        && r == ReadResult(BlockRead(dataFormat), true, old(replies), timeout)
        && replies == Remaining(old(replies), timeout)
    {
      var sent := Send(WriteOp(command, data));
      if sent.Fail? {
        return Err(sent.error);
      }
      r := ReadBlock();
    }

    /** `ScpiQuery(command, data)`: a query whose answer must be a string; with
        data in a binary format the block that comes back is not one. */
    method ScpiQuery(command: string, data: Option<seq<byte>>) returns (r: Result<string>)
      modifies this`log, this`replies
      ensures !old(open) ==> r == Err(NotConnected) && log == old(log) && replies == old(replies)
      ensures old(open) ==>
        && log == old(log) + [IoEvent(WriteOp(command, data), timeout), IoEvent(QueryRead(data, dataFormat), timeout)]
        && replies == Remaining(old(replies), timeout)
        && r == (if !Answers(old(replies), timeout) then Err(BusTimeout)
                 else if data.None? || dataFormat == Ascii then Ok(old(replies)[0].text)
                 else Err(RuntimeBinderFailure))
    {
      if data.None? {
        r := ScpiQueryString(command);
      } else {
        var reading := ScpiQueryIeeeBlock(command, data);
        r := match reading
          case Err(e) => Err(e)
          case Ok(Text(s)) => Ok(s)
          case Ok(_) => Err(RuntimeBinderFailure);
      }
    }

    /** `DownloadHeader()`: ask `*IDN?`, cut the answer at commas, strip spaces
        from field 1 on, then assign the four fields one after another. */
    method DownloadHeader() returns (r: Outcome)
      modifies this`idn, this`log, this`replies
      ensures !old(open) ==> r == Fail(NotConnected) && idn == old(idn) && log == old(log) && replies == old(replies)
      ensures old(open) ==>
        && log == old(log) + [IoEvent(WriteText(IDN_QUERY), timeout), IoEvent(ReadText, timeout)]
        && replies == Remaining(old(replies), timeout)
      ensures old(open) && !Answers(old(replies), timeout) ==> r == Fail(BusTimeout) && idn == old(idn)
      ensures old(open) && Answers(old(replies), timeout) ==> var reply := old(replies)[0].text;
        && idn == AssignIdn(old(idn), IdnFields(reply))
        && (r.Pass? <==> ParseIdn(reply).Ok?)
        && (r.Pass? ==> ParseIdn(reply) == Ok(idn))
        && (r.Fail? ==> r == Fail(IndexOutOfRange))
    {
      r := ScpiCommand(IDN_QUERY, None);
      if r.Fail? {
        return;
      }
      var full := ReadString();
      if full.Err? {
        return Fail(full.error);
      }
      var parsed := IdnFieldArray(full.value);
      idn := idn.(company := parsed[0]);
      if parsed.Length < 2 {
        return Fail(IndexOutOfRange);
      }
      idn := idn.(model := parsed[1]);
      if parsed.Length < 3 {
        return Fail(IndexOutOfRange);
      }
      idn := idn.(serial := parsed[2]);
      if parsed.Length < 4 {
        return Fail(IndexOutOfRange);
      }
      idn := idn.(firmware := parsed[3]);
    }
  }
}
