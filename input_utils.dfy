/** Input selection and normalisation of `src/input/utils.rs` (duplicated
    verbatim in `src/input/mod.rs`): where the bytes come from, how armoured
    text is unwrapped, and which decoding is applied. */
module InputUtils {
  import opened Wrappers
  import opened Der
  import Utf8
  import Hex

  const Newline: byte := 0x0A
  const CarriageReturn: byte := 0x0D
  const Dash: byte := 0x2D

  /** `io::Error`, as far as this code tells errors apart: a line that is not
      UTF-8, or a failed read of a file or of stdin. */
  datatype IoError = InvalidData | ReadFailed(reason: string)

  /** `InputError` of `src/input/error.rs`. The codec errors carry no detail
      here because the codecs are parameters. */
  datatype InputError =
    | IoError(io: IoError)
    | DecodeBase64Error
    | DecodeHexError
    | NoInputProvided

  /** The length of the first line of a non-empty buffer as `BufRead::lines`
      reads it: up to and including the first '\n', or everything. */
  function LineLength(s: seq<byte>): (n: nat)
    requires |s| > 0
    ensures 1 <= n <= |s|
    ensures forall j | 0 <= j < n - 1 :: s[j] != Newline
    ensures s[n - 1] == Newline || n == |s|
    decreases |s|
  {
    if s[0] == Newline || |s| == 1 then 1 else 1 + LineLength(s[1..])
  }

  /** The text of a raw line: a final '\n' is dropped, and then a '\r'
      before it. */
  function LineText(raw: seq<byte>): (text: seq<byte>)
    ensures text <= raw
    ensures raw == text || raw == text + [Newline] || raw == text + [CarriageReturn, Newline]
  {
    if |raw| > 0 && raw[|raw| - 1] == Newline then
      var line := raw[..|raw| - 1];
      if |line| > 0 && line[|line| - 1] == CarriageReturn then line[..|line| - 1] else line
    else raw
  }

  /** Which ending a line loses: none exactly when it does not end in '\n',
      and "\r\n" exactly when it ends in "\r\n". */
  lemma LineTextEnds(raw: seq<byte>)
    ensures (raw == [] || raw[|raw| - 1] != Newline) <==> raw == LineText(raw)
    ensures (|raw| >= 2 && raw[|raw| - 2..] == [CarriageReturn, Newline]) <==>
              raw == LineText(raw) + [CarriageReturn, Newline]
  {
  }

  /** `line.starts_with("----")`. */
  predicate IsArmour(text: seq<byte>) {
    |text| >= 4 && text[..4] == [Dash, Dash, Dash, Dash]
  }

  /** What a kept or dropped line adds to the output. */
  function Kept(text: seq<byte>): seq<byte> {
    if IsArmour(text) then [] else text
  }

  /** `p` in front of a successful result; an error passes through. */
  function Prepend(p: seq<byte>, r: Result<seq<byte>, IoError>): Result<seq<byte>, IoError> {
    match r
    case Ok(rest) => Ok(p + rest)
    case Err(e) => Err(e)
  }

  /** `process_text_content` line by line: a line that is not UTF-8 ends it
      with `InvalidData`; armour lines are dropped; the others are joined in
      order with nothing between them. */
  function ProcessedText(data: seq<byte>): Result<seq<byte>, IoError>
    decreases |data|
  {
    if data == [] then Ok([])
    else
      var n := LineLength(data);
      if !Utf8.WellFormed(data[..n]) then Err(InvalidData)
      else Prepend(Kept(LineText(data[..n])), ProcessedText(data[n..]))
  }

  lemma PrependAssoc(p: seq<byte>, q: seq<byte>, r: Result<seq<byte>, IoError>)
    ensures Prepend(p, Prepend(q, r)) == Prepend(p + q, r)
  {
    if r.Ok? {
      assert p + (q + r.value) == (p + q) + r.value;
    }
  }

  /** One turn of the line loop, on the unread part `s` of the buffer. */
  lemma ProcessedStep(s: seq<byte>, result: seq<byte>)
    requires s != []
    ensures var n := LineLength(s);
            && (!Utf8.WellFormed(s[..n]) ==> Prepend(result, ProcessedText(s)) == Err(InvalidData))
            && (Utf8.WellFormed(s[..n]) ==>
                  Prepend(result, ProcessedText(s)) == Prepend(result + Kept(LineText(s[..n])), ProcessedText(s[n..])))
  {
    var n := LineLength(s);
    if Utf8.WellFormed(s[..n]) {
      PrependAssoc(result, Kept(LineText(s[..n])), ProcessedText(s[n..]));
    }
  }

  /** `process_text_content`: the loop over `reader.lines()`, the reader
      holding the unread part of the buffer. */
  method ProcessTextContent(data: seq<byte>) returns (r: Result<seq<byte>, IoError>)
    ensures r == ProcessedText(data)
  {
    var result: seq<byte> := [];
    var unread := data;
    if ProcessedText(data).Ok? {
      assert result + ProcessedText(data).value == ProcessedText(data).value;
    }
    while unread != []
      invariant ProcessedText(data) == Prepend(result, ProcessedText(unread))
      decreases |unread|
    {
      var n := LineLength(unread);
      var raw := unread[..n];
      ProcessedStep(unread, result);
      if !Utf8.WellFormed(raw) {
        return Err(InvalidData);
      }
      var line := LineText(raw);
      ghost var next := result + Kept(line);
      if !IsArmour(line) {
        result := result + line;
      } else {
        assert next == result + [] == result;
      }
      assert result == next;
      unread := unread[n..];
    }
    assert Prepend(result, Ok([])) == Ok(result) by {
      assert result + [] == result;
    }
    return Ok(result);
  }

  /** The lines of a non-empty buffer other than the last end in '\n', an
      ASCII octet. */
  lemma LineEndsAscii(data: seq<byte>)
    requires |data| > 0
    ensures var n := LineLength(data);
            n < |data| ==> data[..n][n - 1] < 0x80
  {
  }

  /** Processing succeeds exactly on well-formed UTF-8. */
  lemma {:induction false} ProcessedOkIffWellFormed(data: seq<byte>)
    ensures ProcessedText(data).Ok? <==> Utf8.WellFormed(data)
    decreases |data|
  {
    if data != [] {
      var n := LineLength(data);
      assert data == data[..n] + data[n..];
      if n < |data| {
        LineEndsAscii(data);
        Utf8.WellFormedSplitAtAscii(data[..n], data[n..]);
      } else {
        assert data[..n] == data && data[n..] == [];
      }
      ProcessedOkIffWellFormed(data[n..]);
    }
  }

  /** A line's text holds no '\n' and stays well-formed UTF-8. */
  lemma LineTextFacts(raw: seq<byte>)
    requires |raw| > 0 && Utf8.WellFormed(raw)
    requires forall j | 0 <= j < |raw| - 1 :: raw[j] != Newline
    ensures Newline !in LineText(raw) && Utf8.WellFormed(LineText(raw))
  {
    var text := LineText(raw);
    if raw != text {
      var ending := raw[|text|..];
      assert raw == text + ending;
      Utf8.WellFormedBeforeAscii(text, ending);
    }
    forall j | 0 <= j < |text|
      ensures text[j] != Newline
    {
      assert text[j] == raw[j];
    }
  }

  /** The output is well-formed UTF-8 without a single '\n'. */
  lemma {:induction false} ProcessedIsOneLine(data: seq<byte>)
    requires ProcessedText(data).Ok?
    ensures Newline !in ProcessedText(data).value
    ensures Utf8.WellFormed(ProcessedText(data).value)
    decreases |data|
  {
    if data != [] {
      var n := LineLength(data);
      var text := Kept(LineText(data[..n]));
      LineTextFacts(data[..n]);
      assert Utf8.WellFormed(text) by {
        if text == [] {
          assert Utf8.WellFormed([]);
        }
      }
      ProcessedIsOneLine(data[n..]);
      Utf8.WellFormedAppend(text, ProcessedText(data[n..]).value);
    }
  }

  /** The first line of `line + "\n" + rest`, for a well-formed line. */
  lemma FirstLine(line: seq<byte>, rest: seq<byte>)
    requires Newline !in line && Utf8.WellFormed(line)
    ensures var data := line + [Newline] + rest;
            && LineLength(data) == |line| + 1
            && data[..|line| + 1] == line + [Newline]
            && data[|line| + 1..] == rest
            && Utf8.WellFormed(line + [Newline])
  {
    FirstLineBreak(line, rest);
    LineWithBreak(line);
  }

  lemma FirstLineBreak(line: seq<byte>, rest: seq<byte>)
    requires Newline !in line
    ensures var data := line + [Newline] + rest;
            && LineLength(data) == |line| + 1
            && data[..|line| + 1] == line + [Newline]
            && data[|line| + 1..] == rest
  {
    var data := line + [Newline] + rest;
    forall j | 0 <= j < |line|
      ensures data[j] != Newline
    {
      assert data[j] == line[j];
      assert line[j] in line;
    }
    assert data[|line|] == Newline;
    LineLengthAt(data, |line|);
    assert data[..|line| + 1] == line + [Newline];
    assert data[|line| + 1..] == rest;
  }

  lemma LineWithBreak(line: seq<byte>)
    requires Utf8.WellFormed(line)
    ensures Utf8.WellFormed(line + [Newline])
  {
    assert Utf8.WellFormed([Newline]) by {
      assert [Newline][1..] == [];
    }
    Utf8.WellFormedAppend(line, [Newline]);
  }

  /** A "----" line and its line break vanish from the output. */
  lemma ArmourLineDropped(line: seq<byte>, rest: seq<byte>)
    requires Newline !in line && Utf8.WellFormed(line) && IsArmour(line)
    ensures ProcessedText(line + [Newline] + rest) == ProcessedText(rest)
  {
    var data := line + [Newline] + rest;
    FirstLine(line, rest);
    ArmourTextDropped(line);
    PrependNothing(ProcessedText(rest));
    assert data != [];
  }

  /** The text of an armour line is an armour line too. */
  lemma ArmourTextDropped(line: seq<byte>)
    requires IsArmour(line)
    ensures Kept(LineText(line + [Newline])) == []
  {
    var raw := line + [Newline];
    assert raw[..|raw| - 1] == line;
    var text := LineText(raw);
    assert text == line || text == line[..|line| - 1];
    assert text[..4] == line[..4];
  }

  lemma PrependNothing(r: Result<seq<byte>, IoError>)
    ensures Prepend([], r) == r
  {
    if r.Ok? {
      assert [] + r.value == r.value;
    }
  }

  /** Any other line is copied to the output, ahead of what follows. */
  lemma TextLineKept(line: seq<byte>, rest: seq<byte>)
    requires Newline !in line && Utf8.WellFormed(line) && !IsArmour(line)
    requires line == [] || line[|line| - 1] != CarriageReturn
    ensures ProcessedText(line + [Newline] + rest) == Prepend(line, ProcessedText(rest))
  {
    FirstLine(line, rest);
    assert (line + [Newline])[..|line|] == line;
  }

  /** A line ending in "\r\n" is copied without both of them, so armoured
      text with Windows line breaks comes out as it does with '\n'. */
  lemma CrLfLineKept(line: seq<byte>, rest: seq<byte>)
    requires Newline !in line && Utf8.WellFormed(line) && !IsArmour(line)
    ensures ProcessedText(line + [CarriageReturn, Newline] + rest) == Prepend(line, ProcessedText(rest))
  {
    var withCr := line + [CarriageReturn];
    assert Utf8.WellFormed(withCr) by {
      assert Utf8.WellFormed([CarriageReturn]) by {
        assert [CarriageReturn][1..] == [];
      }
      Utf8.WellFormedAppend(line, [CarriageReturn]);
    }
    assert Newline !in withCr by {
      forall j | 0 <= j < |withCr|
        ensures withCr[j] != Newline
      {
        if j < |line| {
          assert withCr[j] == line[j];
          assert line[j] in line;
        }
      }
    }
    assert line + [CarriageReturn, Newline] + rest == withCr + [Newline] + rest;
    FirstLine(withCr, rest);
    var raw := withCr + [Newline];
    assert raw[|raw| - 2..] == [CarriageReturn, Newline];
    assert raw == line + [CarriageReturn, Newline];
    assert LineText(raw) == line;
  }

  /** A line that is not UTF-8 makes the whole buffer an error. */
  lemma BadLineFails(line: seq<byte>, rest: seq<byte>)
    requires Newline !in line && !Utf8.WellFormed(line)
    ensures ProcessedText(line + [Newline] + rest) == Err(InvalidData)
  {
    var data := line + [Newline] + rest;
    assert forall j | 0 <= j < |line| :: data[j] == line[j];
    LineLengthAt(data, |line|);
    assert data[..|line| + 1] == line + [Newline];
    if Utf8.WellFormed(line + [Newline]) {
      Utf8.WellFormedBeforeAscii(line, [Newline]);
    }
  }

  /** The first line of a buffer whose first '\n' is at `i`. */
  lemma {:induction false} LineLengthAt(data: seq<byte>, i: nat)
    requires i < |data| && data[i] == Newline
    requires forall j | 0 <= j < i :: data[j] != Newline
    ensures LineLength(data) == i + 1
    decreases i
  {
    if i > 0 {
      LineLengthAt(data[1..], i - 1);
    }
  }

  /** `read_content` once the buffer has been read (the read itself is
      I/O and arrives as `read`): armoured text is unwrapped, and a buffer
      that is not UTF-8 is kept as it is. */
  function ReadContent(read: Result<seq<byte>, IoError>): (r: Result<seq<byte>, IoError>)
    ensures read.Err? ==> r == read
    ensures read.Ok? ==> r.Ok?
    ensures read.Ok? && !Utf8.WellFormed(read.value) ==> r.value == read.value
    ensures read.Ok? && Utf8.WellFormed(read.value) ==>
              Utf8.WellFormed(r.value) && Newline !in r.value
    ensures read.Ok? && Utf8.WellFormed(read.value) ==> r == ProcessedText(read.value)
  {
    match read
    case Err(e) => Err(e)
    case Ok(buffer) =>
      ProcessedOkIffWellFormed(buffer);
      match ProcessedText(buffer)
      case Ok(content) =>
        ProcessedIsOneLine(buffer);
        Ok(content)
      case Err(_) => Ok(buffer)
  }

  /** The two codecs, which live in other crates: each gives the decoded
      bytes, or `None` where the crate reports an error. `base64` is the
      standard alphabet with padding (section 4 of RFC 4648). */
  datatype Codecs = Codecs(base64: seq<byte> -> Option<seq<byte>>, hex: seq<byte> -> Option<seq<byte>>)

  /** `is_valid_base64`: the buffer decodes, and to something other than
      itself. */
  function IsValidBase64(codecs: Codecs, data: seq<byte>): (r: bool)
    ensures r ==> codecs.base64(data).Some?
    ensures codecs.base64(data) == Some(data) ==> !r
  {
    codecs.base64(data).Some? && codecs.base64(data).value != data
  }

  /** The empty buffer, which the base64 engine decodes to itself or
      rejects, is never base64 but always hex, so it goes to the hex
      decoder. */
  lemma EmptyInputGoesToHex(codecs: Codecs)
    requires codecs.base64([]).None? || codecs.base64([]) == Some([])
    ensures !IsValidBase64(codecs, [])
    ensures GetRawData(codecs, []) ==
              if codecs.hex([]).Some? then Ok(codecs.hex([]).value) else Err(DecodeHexError)
  {
    Hex.EmptyIsValidHex();
  }

  /** `get_raw_data`: base64 first, then hex, else the bytes as they are. */
  function GetRawData(codecs: Codecs, input: seq<byte>): (r: Result<seq<byte>, InputError>)
    ensures IsValidBase64(codecs, input) ==> r == Ok(codecs.base64(input).value)
    ensures !IsValidBase64(codecs, input) && Hex.IsValidHex(input) ==>
              r == (if codecs.hex(input).Some? then Ok(codecs.hex(input).value) else Err(DecodeHexError))
    ensures !IsValidBase64(codecs, input) && !Hex.IsValidHex(input) ==> r == Ok(input)
  {
    if IsValidBase64(codecs, input) then
      match codecs.base64(input)
      case Some(decoded) => Ok(decoded)
      case None => Err(DecodeBase64Error)
    else if Hex.IsValidHex(input) then
      match codecs.hex(input)
      case Some(decoded) => Ok(decoded)
      case None => Err(DecodeHexError)
    else Ok(input)
  }

  /** The validator runs the same decoder as the decoding, so the base64
      error is never returned; the only failure is a hex decoder refusing a
      buffer the hex validator accepted. */
  lemma RawDataErrors(codecs: Codecs, input: seq<byte>)
    ensures GetRawData(codecs, input) != Err(DecodeBase64Error)
    ensures GetRawData(codecs, input).Err? ==>
              !IsValidBase64(codecs, input) && Hex.IsValidHex(input) && codecs.hex(input).None?
  {
  }

  /** The command line of `src/cli.rs`: `--file` and `--asn1`. */
  datatype Cli = Cli(file: Option<string>, asn1: Option<seq<byte>>)

  /** What `get_input` sees of the outside world: the result of reading a
      file by path, whether stdin is a pipe rather than a terminal, and the
      result of reading stdin. */
  datatype Environment = Environment(
    readFile: string -> Result<seq<byte>, IoError>,
    stdinPiped: bool,
    readStdin: Result<seq<byte>, IoError>)

  function FromIo(r: Result<seq<byte>, IoError>): Result<seq<byte>, InputError> {
    match r
    case Ok(bytes) => Ok(bytes)
    case Err(e) => Err(IoError(e))
  }

  /** `get_input`: the `--asn1` string as it is, else the `--file` content,
      else piped stdin, else `NoInputProvided`. */
  function GetInput(cli: Cli, env: Environment): (r: Result<seq<byte>, InputError>)
    ensures cli.asn1.Some? ==> r == Ok(cli.asn1.value)
    ensures cli.asn1.None? && cli.file.Some? ==> r == FromIo(ReadContent(env.readFile(cli.file.value)))
    ensures cli.asn1.None? && cli.file.None? && env.stdinPiped ==> r == FromIo(ReadContent(env.readStdin))
    ensures r == Err(NoInputProvided) <==> cli.asn1.None? && cli.file.None? && !env.stdinPiped
  {
    if cli.asn1.Some? then Ok(cli.asn1.value)
    else if cli.file.Some? then FromIo(ReadContent(env.readFile(cli.file.value)))
    else if env.stdinPiped then FromIo(ReadContent(env.readStdin))
    else Err(NoInputProvided)
  }

  /** `get_input_data`: the input, then its decoding. The base64 error
      never reaches the caller, and missing input is reported exactly when
      no source is there. */
  function GetInputData(cli: Cli, env: Environment, codecs: Codecs): (r: Result<seq<byte>, InputError>)
    ensures r != Err(DecodeBase64Error)
    ensures r == Err(NoInputProvided) <==> cli.asn1.None? && cli.file.None? && !env.stdinPiped
    ensures r.Err? ==> r.error.IoError? || r == Err(NoInputProvided) || r == Err(DecodeHexError)
  {
    match GetInput(cli, env)
    case Err(e) => Err(e)
    case Ok(input) =>
      RawDataErrors(codecs, input);
      GetRawData(codecs, input)
  }

  /** The `--asn1` argument wins over everything else, and a file over
      stdin: what is not chosen is never read. */
  lemma InputPrecedence(cli: Cli, env: Environment, env': Environment)
    requires cli.asn1.Some? || (cli.file.Some? && env'.readFile == env.readFile)
    ensures GetInput(cli, env) == GetInput(cli, env')
  {
  }
}
