/** load_csv: every line of a CSV file becomes one labelled 28x28 image,
    appended to two vectors the caller owns. */
module Loader {
  import opened Numeric
  import opened Fields
  import opened Image

  datatype Option<T> = None | Some(value: T)

  /** What one line yields: the label and the 784 narrowed pixels, in the
      order they appear on the line. */
  datatype Record = Record(category: nat, pixels: Pixels)

  /** What a whole load yields: the records of the lines read before the
      first failing one (all lines when none fails), and the exception that
      failing line raised. */
  datatype LoadOutcome = LoadOutcome(records: seq<Record>, error: Option<ParseError>)

  /** The lines `while (std::getline(file, line))` hands out for a file's
      contents: the text cut at every '\n', where a final '\n' does not start
      one more line. */
  function FileLines(content: string): (lines: seq<string>)
    ensures content == [] <==> lines == []
    ensures forall i | 0 <= i < |lines| :: '\n' !in lines[i]
  {
    if content == [] then []
    else
      var pieces := Split(content, '\n');
      SplitHasNoDelimiter(content, '\n');
      if pieces[|pieces| - 1] == [] then
        assert |pieces| > 1 by {
          if |pieces| == 1 { JoinSplit(content, '\n'); }
        }
        pieces[..|pieces| - 1]
      else pieces
  }

  lemma {:induction false} JoinSnoc(lines: seq<string>, d: char)
    requires |lines| >= 1
    ensures Join(lines + [[]], d) == Join(lines, d) + [d]
  {
    if |lines| > 1 {
      JoinSnoc(lines[1..], d);
      assert (lines + [[]])[1..] == lines[1..] + [[]];
    }
  }

  /** A file written line by line, each line ended by '\n', reads back as
      exactly those lines; so does one whose last line has no '\n' as long as
      that line is not empty. */
  lemma FileLinesOfLines(lines: seq<string>)
    requires |lines| >= 1
    requires forall i | 0 <= i < |lines| :: '\n' !in lines[i]
    ensures FileLines(Join(lines, '\n') + "\n") == lines
    ensures lines[|lines| - 1] != [] ==> FileLines(Join(lines, '\n')) == lines
  {
    JoinSnoc(lines, '\n');
    SplitJoin(lines + [[]], '\n');
    assert (lines + [[]])[..|lines|] == lines;
    SplitJoin(lines, '\n');
    if Join(lines, '\n') == [] {
      assert |Split([], '\n')| == 1;
    }
  }

  /** The string `value` holds after the (k+1)-th `std::getline(ss, value, ',')`
      on a fresh stream over `line`: field k while there is one, the last
      field again once they are used up. */
  function Token(line: string, k: nat): (t: string)
    ensures Comma !in t
  {
    var fs := Split(line, Comma);
    SplitHasNoDelimiter(line, Comma);
    if k < |fs| then fs[k] else fs[|fs| - 1]
  }

  /** std::stoul applied to each token in turn, stopping at the first
      exception. */
  function ParseTokens(tokens: seq<string>): (r: Result<seq<nat>>)
    ensures r.Ok? ==> |r.value| == |tokens|
  {
    if tokens == [] then Ok([])
    else
      match ParseTokens(tokens[..|tokens| - 1])
      case Err(e) => Err(e)
      case Ok(vs) =>
        match Stoul(tokens[|tokens| - 1])
        case Err(e) => Err(e)
        case Ok(v) => Ok(vs + [v])
  }

  /** The tokens parse exactly when stoul accepts each of them, to the values
      stoul gives them; otherwise the error is that of the first token stoul
      rejects. */
  lemma {:induction false} ParseTokensSpec(tokens: seq<string>)
    ensures ParseTokens(tokens).Ok? <==> forall i | 0 <= i < |tokens| :: Stoul(tokens[i]).Ok?
    ensures ParseTokens(tokens).Ok? ==>
      |ParseTokens(tokens).value| == |tokens| &&
      forall i | 0 <= i < |tokens| :: Stoul(tokens[i]) == Ok(ParseTokens(tokens).value[i])
    ensures ParseTokens(tokens).Err? ==>
      exists i | 0 <= i < |tokens| ::
        Stoul(tokens[i]) == Err(ParseTokens(tokens).error) &&
        forall j | 0 <= j < i :: Stoul(tokens[j]).Ok?
  {
    if tokens != [] {
      var init := tokens[..|tokens| - 1];
      ParseTokensSpec(init);
      assert forall i | 0 <= i < |init| :: init[i] == tokens[i];
    }
  }

  /** Once a prefix of the tokens fails, the whole sequence fails with the
      same error: the tokens after it are never converted. */
  lemma {:induction false} ParseTokensPrefixErr(tokens: seq<string>, n: nat, e: ParseError)
    requires n <= |tokens|
    requires ParseTokens(tokens[..n]) == Err(e)
    ensures ParseTokens(tokens) == Err(e)
  {
    if n < |tokens| {
      var init := tokens[..|tokens| - 1];
      assert init[..n] == tokens[..n];
      ParseTokensPrefixErr(init, n, e);
    } else {
      assert tokens[..n] == tokens;
    }
  }

  /** The values `value` takes in the first n getline calls on a line. */
  function TokensUpTo(line: string, n: nat): (tokens: seq<string>)
    ensures |tokens| == n
  {
    if n == 0 then [] else TokensUpTo(line, n - 1) + [Token(line, n - 1)]
  }

  /** The values `value` takes in the label read and the 784 pixel reads. */
  function Tokens(line: string): (tokens: seq<string>)
    ensures |tokens| == PixelCount + 1
  {
    TokensUpTo(line, PixelCount + 1)
  }

  /** Call k of the first n leaves token k in `value`. */
  lemma {:induction false} TokensAt(line: string, n: nat, k: nat)
    requires k < n
    ensures TokensUpTo(line, n)[k] == Token(line, k)
  {
    if k < n - 1 {
      TokensAt(line, n - 1, k);
    }
  }

  /** Each getline after the first hands out the next field, or repeats the
      previous value once the fields are used up. */
  lemma TokensStep(line: string, i: nat)
    requires i < PixelCount
    ensures var fs, tokens := Split(line, Comma), Tokens(line);
      tokens[0] == fs[0] &&
      tokens[i + 1] == if i + 1 < |fs| then fs[i + 1] else tokens[i]
  {
    TokensAt(line, PixelCount + 1, 0);
    TokensAt(line, PixelCount + 1, i);
    TokensAt(line, PixelCount + 1, i + 1);
  }

  /** The record made of the 785 values read from a line. */
  function RecordOf(vs: seq<nat>): Record
    requires |vs| == PixelCount + 1
  {
    Record(vs[0], seq(PixelCount, k requires 0 <= k < PixelCount => Narrow(vs[k + 1])))
  }

  /** The body of load_csv's line loop up to the reshape: the label from
      token 0, then pixel k from token k + 1 narrowed to a byte, for the 784
      pixels; the first token stoul rejects is the line's error. */
  function ParseRecord(line: string): (r: Result<Record>)
    ensures r.Ok? ==> r.value.category <= ULongMax
  {
    ParseTokensSpec(Tokens(line));
    match ParseTokens(Tokens(line))
    case Err(e) => Err(e)
    case Ok(vs) => Ok(RecordOf(vs))
  }

  /** A line yields a record exactly when stoul accepts all 785 tokens read
      from it; the label is the value of the first field and pixel k the
      value of token k + 1 reduced modulo 256. */
  lemma ParseRecordOk(line: string)
    ensures ParseRecord(line).Ok? <==> forall k | 0 <= k <= PixelCount :: Stoul(Token(line, k)).Ok?
    ensures ParseRecord(line).Ok? ==>
      Stoul(Split(line, Comma)[0]) == Ok(ParseRecord(line).value.category) &&
      forall k | 0 <= k < PixelCount ::
        Stoul(Token(line, k + 1)).Ok? &&
        ParseRecord(line).value.pixels[k] == Narrow(Stoul(Token(line, k + 1)).value)
  {
    var tokens := Tokens(line);
    ParseTokensSpec(tokens);
    forall k | 0 <= k <= PixelCount
      ensures tokens[k] == Token(line, k)
    {
      TokensAt(line, PixelCount + 1, k);
    }
  }

  /** A line that yields no record fails with the exception of the first
      token stoul rejects. */
  lemma ParseRecordErr(line: string)
    ensures ParseRecord(line).Err? ==>
      exists k | 0 <= k <= PixelCount ::
        Stoul(Token(line, k)) == Err(ParseRecord(line).error) &&
        forall j | 0 <= j < k :: Stoul(Token(line, j)).Ok?
  {
    var tokens := Tokens(line);
    ParseTokensSpec(tokens);
    var parsed := ParseTokens(tokens);
    if parsed.Err? {
      var i :| 0 <= i < |tokens| && Stoul(tokens[i]) == Err(parsed.error) &&
        forall j | 0 <= j < i :: Stoul(tokens[j]).Ok?;
      forall j | 0 <= j < i
        ensures Stoul(Token(line, j)).Ok?
      {
        TokensAt(line, PixelCount + 1, j);
      }
      TokensAt(line, PixelCount + 1, i);
    }
  }

  /** When stoul accepts all 785 tokens, the record holds the first value as
      its label and the narrowed others as its pixels. */
  lemma {:induction false} ParseRecordFromTokens(line: string, pixels: seq<Byte>)
    requires forall k | 0 <= k <= PixelCount :: Stoul(Tokens(line)[k]).Ok?
    requires |pixels| == PixelCount
    requires forall k | 0 <= k < PixelCount :: pixels[k] == Narrow(Stoul(Tokens(line)[k + 1]).value)
    ensures ParseRecord(line) == Ok(Record(Stoul(Tokens(line)[0]).value, pixels))
  {
    var tokens := Tokens(line);
    ParseTokensSpec(tokens);
    var vals := ParseTokens(tokens).value;
    assert forall k | 0 <= k <= PixelCount :: vals[k] == Stoul(tokens[k]).value;
    assert RecordOf(vals).pixels == pixels;
  }

  /** When stoul accepts the first n tokens and rejects token n, the record
      fails with that token's error. */
  lemma {:induction false} ParseRecordFailsAt(line: string, n: nat)
    requires n <= PixelCount
    requires forall k | 0 <= k < n :: Stoul(Tokens(line)[k]).Ok?
    requires Stoul(Tokens(line)[n]).Err?
    ensures ParseRecord(line) == Err(Stoul(Tokens(line)[n]).error)
  {
    var tokens := Tokens(line);
    ParseTokensSpec(tokens);
    var i :| 0 <= i < |tokens| && Stoul(tokens[i]) == Err(ParseTokens(tokens).error) &&
      forall j | 0 <= j < i :: Stoul(tokens[j]).Ok?;
    assert i == n;
  }

  /** Fields after the 785th are never read: appending more of them leaves
      the parse unchanged. */
  lemma ExtraFieldsIgnored(line: string, extra: string)
    requires |Split(line, Comma)| >= PixelCount + 1
    ensures ParseRecord(line + [Comma] + extra) == ParseRecord(line)
  {
    var longer := line + [Comma] + extra;
    SplitAppend(line, extra, Comma);
    forall k | 0 <= k <= PixelCount
      ensures Tokens(longer)[k] == Tokens(line)[k]
    {
      TokensAt(longer, PixelCount + 1, k);
      TokensAt(line, PixelCount + 1, k);
    }
    assert Tokens(longer) == Tokens(line);
  }

  /** A line with fewer than 785 fields whose fields all convert is not
      rejected: once its fields are used up, every later pixel repeats the
      value of its last field. */
  lemma ShortLineRepeatsLast(line: string)
    requires |Split(line, Comma)| <= PixelCount
    requires forall i | 0 <= i < |Split(line, Comma)| :: Stoul(Split(line, Comma)[i]).Ok?
    ensures ParseRecord(line).Ok?
    ensures var fs := Split(line, Comma);
      forall k | |fs| - 1 <= k < PixelCount ::
        ParseRecord(line).value.pixels[k] == Narrow(Stoul(fs[|fs| - 1]).value)
  {
    ParseRecordOk(line);
  }

  /** A field among the first 785 in which no digit follows the white space
      and the optional sign makes the line fail; when every field before it
      converts, the error is invalid_argument. */
  lemma NoNumberFieldRejected(line: string, j: nat)
    requires j <= PixelCount && j < |Split(line, Comma)|
    requires NoLeadingNumber(Split(line, Comma)[j])
    ensures ParseRecord(line).Err?
    ensures (forall i | 0 <= i < j :: Stoul(Split(line, Comma)[i]).Ok?) ==>
      ParseRecord(line) == Err(InvalidArgument)
  {
    var fs := Split(line, Comma);
    StoulRejectsNoNumber(fs[j]);
    ParseRecordOk(line);
    TokensAt(line, PixelCount + 1, j);
    if forall i | 0 <= i < j :: Stoul(fs[i]).Ok? {
      forall k | 0 <= k < j
        ensures Stoul(Tokens(line)[k]).Ok?
      {
        TokensAt(line, PixelCount + 1, k);
      }
      ParseRecordFailsAt(line, j);
    }
  }

  /** An empty line, such as a blank line in the file, throws
      invalid_argument from the label's stoul. */
  lemma EmptyLineRejected()
    ensures ParseRecord("") == Err(InvalidArgument)
  {
    assert Split("", Comma) == [""];
    NoNumberFieldRejected("", 0);
  }

  /** The line a record is written as: its label and then its 784 pixels in
      decimal, separated by commas. */
  function FormatLine(r: Record): string {
    Join([Decimal(r.category)] + seq(PixelCount, k requires 0 <= k < PixelCount => Decimal(r.pixels[k])), Comma)
  }

  /** Every record whose label fits an unsigned long reads back from the line
      it is written as. */
  lemma {:induction false} ParseFormatLine(r: Record)
    requires r.category <= ULongMax
    ensures ParseRecord(FormatLine(r)) == Ok(r)
  {
    var fields := [Decimal(r.category)] + seq(PixelCount, k requires 0 <= k < PixelCount => Decimal(r.pixels[k]));
    var line := FormatLine(r);
    forall i | 0 <= i < |fields|
      ensures Comma !in fields[i]
    {
      assert AllDigits(fields[i]);
    }
    SplitJoin(fields, Comma);
    StoulOfDecimal(r.category);
    forall k | 0 <= k <= PixelCount
      ensures Tokens(line)[k] == fields[k]
      ensures Stoul(Tokens(line)[k]) == Ok(if k == 0 then r.category else r.pixels[k - 1])
    {
      TokensAt(line, PixelCount + 1, k);
      if k > 0 {
        StoulOfDecimal(r.pixels[k - 1]);
      }
    }
    ParseRecordFromTokens(line, r.pixels);
  }

  /** Every line in order, up to the first one whose parse throws. */
  function Load(lines: seq<string>): (r: LoadOutcome)
    ensures |r.records| <= |lines|
    ensures r.error.None? <==> |r.records| == |lines|
  {
    if lines == [] then LoadOutcome([], None)
    else
      match ParseRecord(lines[0])
      case Err(e) => LoadOutcome([], Some(e))
      case Ok(rec) =>
        var rest := Load(lines[1..]);
        LoadOutcome([rec] + rest.records, rest.error)
  }

  /** Record i is the parse of line i, and an error is the parse error of
      the first line that has no record. */
  lemma {:induction false} LoadSpec(lines: seq<string>)
    ensures var r := Load(lines);
      (forall i | 0 <= i < |r.records| :: ParseRecord(lines[i]) == Ok(r.records[i])) &&
      (r.error.Some? ==> ParseRecord(lines[|r.records|]) == Err(r.error.value))
  {
    if lines != [] && ParseRecord(lines[0]).Ok? {
      LoadSpec(lines[1..]);
      var rest := Load(lines[1..]);
      forall i | 1 <= i < |Load(lines).records|
        ensures ParseRecord(lines[i]) == Ok(Load(lines).records[i])
      {
        assert lines[1..][i - 1] == lines[i];
        assert Load(lines).records[i] == rest.records[i - 1];
      }
    }
  }

  /** Load stops at the first line that fails, with the records of the lines
      before it and that line's error. */
  lemma {:induction false} LoadStopsAtError(lines: seq<string>, done: seq<Record>)
    requires |done| < |lines|
    requires forall j | 0 <= j < |done| :: ParseRecord(lines[j]) == Ok(done[j])
    requires ParseRecord(lines[|done|]).Err?
    ensures Load(lines) == LoadOutcome(done, Some(ParseRecord(lines[|done|]).error))
  {
    if done != [] {
      LoadStopsAtError(lines[1..], done[1..]);
    }
  }

  /** When every line parses, Load returns one record per line, in order,
      and no error. */
  lemma {:induction false} LoadAllLines(lines: seq<string>, done: seq<Record>)
    requires |done| == |lines|
    requires forall j | 0 <= j < |done| :: ParseRecord(lines[j]) == Ok(done[j])
    ensures Load(lines) == LoadOutcome(done, None)
  {
    if done != [] {
      LoadAllLines(lines[1..], done[1..]);
      assert done == [done[0]] + done[1..];
    }
  }

  /** A blank line is not skipped: it ends the load with invalid_argument,
      keeping the records of the lines before it. */
  lemma BlankLineStopsLoad(lines: seq<string>, i: nat)
    requires i < |lines| && lines[i] == ""
    requires forall j | 0 <= j < i :: ParseRecord(lines[j]).Ok?
    ensures Load(lines).error == Some(InvalidArgument)
    ensures |Load(lines).records| == i
  {
    var done := seq(i, j requires 0 <= j < i => ParseRecord(lines[j]).value);
    EmptyLineRejected();
    LoadStopsAtError(lines, done);
  }

  /** The images the records contribute to the image vector. */
  function ImagesOf(records: seq<Record>): seq<Matrix> {
    seq(|records|, i requires 0 <= i < |records| => Reshape(records[i].pixels))
  }

  /** The labels the records contribute to the label vector. */
  function LabelsOf(records: seq<Record>): seq<nat> {
    seq(|records|, i requires 0 <= i < |records| => records[i].category)
  }

  /** A std::vector that is only appended to. */
  class Vector<T> {
    var elems: seq<T>

    constructor ()
      ensures elems == []
    {
      elems := [];
    }

    method PushBack(x: T)
      modifies this
      ensures elems == old(elems) + [x]
    {
      elems := elems + [x];
    }
  }

  /** One turn of the pixel loop: the next getline on the line's stream and
      stoul of the value it leaves, whose narrowed value goes to pixel i when
      stoul succeeds. */
  method ReadPixel(ss: StringStream, line: string, i: nat, value: string, image: array<Byte>)
    returns (next: string, pixel: Result<nat>)
    requires i < PixelCount && image.Length == PixelCount
    requires ss.Valid() && ss.text == line
    requires ss.taken == if i + 1 < |Split(line, Comma)| then i + 1 else |Split(line, Comma)|
    requires value == Tokens(line)[i]
    modifies ss, image
    ensures ss.Valid() && ss.text == line
    ensures ss.taken == if i + 2 < |Split(line, Comma)| then i + 2 else |Split(line, Comma)|
    ensures next == Tokens(line)[i + 1] && pixel == Stoul(next)
    ensures pixel.Ok? ==> image[..] == old(image[..])[i := Narrow(pixel.value)]
    ensures pixel.Err? ==> image[..] == old(image[..])
  {
    next := ss.GetLine(value);
    TokensStep(line, i);
    pixel := Stoul(next);
    if pixel.Ok? {
      image[i] := Narrow(pixel.value);
    }
  }

  /** The pixel loop of load_csv's line loop: 784 getline and stoul calls on
      the line's stream, each narrowed value written to its place in the
      buffer. It stops at the first pixel token stoul rejects, returning its
      position among the tokens and its error. */
  method ReadPixels(ss: StringStream, line: string, value: string, image: array<Byte>)
    returns (failure: Option<(nat, ParseError)>)
    requires image.Length == PixelCount
    requires ss.Valid() && ss.text == line
    requires ss.taken == if 1 < |Split(line, Comma)| then 1 else |Split(line, Comma)|
    requires value == Tokens(line)[0]
    modifies ss, image
    ensures failure.None? ==>
      forall k | 1 <= k <= PixelCount ::
        Stoul(Tokens(line)[k]).Ok? && image[k - 1] == Narrow(Stoul(Tokens(line)[k]).value)
    ensures failure.Some? ==>
      var (n, e) := failure.value;
      1 <= n <= PixelCount && Stoul(Tokens(line)[n]) == Err(e) &&
      forall k | 1 <= k < n :: Stoul(Tokens(line)[k]).Ok?
  {
    ghost var fs := Split(line, Comma);
    ghost var tokens := Tokens(line);
    var next := value;
    for i := 0 to PixelCount
      invariant ss.Valid() && ss.text == line
      invariant ss.taken == if i + 1 < |fs| then i + 1 else |fs|
      invariant next == tokens[i]
      invariant forall k | 1 <= k <= i ::
        Stoul(tokens[k]).Ok? && image[k - 1] == Narrow(Stoul(tokens[k]).value)
    {
      var pixel;
      next, pixel := ReadPixel(ss, line, i, next, image);
      if pixel.Err? {
        return Some((i + 1, pixel.error));
      }
    }
    failure := None;
  }

  /** One pass of load_csv's line loop up to the reshape: a string stream
      over the line, the label from the first getline, then the pixel loop
      filling a fresh 784-byte buffer. An exception from stoul ends the pass
      with that error. */
  method ReadRecord(line: string) returns (category: Result<nat>, image: array<Byte>)
    ensures image.Length == PixelCount
    ensures category.Ok? ==> ParseRecord(line) == Ok(Record(category.value, image[..]))
    ensures category.Err? ==> ParseRecord(line) == Err(category.error)
  {
    var ss := new StringStream(line);
    var value := "";
    image := new Byte[PixelCount];
    value := ss.GetLine(value);
    category := Stoul(value);
    TokensStep(line, 0);
    if category.Err? {
      ParseRecordFailsAt(line, 0);
      return;
    }
    var failure := ReadPixels(ss, line, value, image);
    if failure.Some? {
      category := Err(failure.value.1);
      ParseRecordFailsAt(line, failure.value.0);
      return;
    }
    ParseRecordFromTokens(line, image[..]);
  }

  /** load_csv(filename, images, labels) over the file's lines. Each line
      appends its reshaped image to `images` and its label to `labels`; the
      first line whose parse throws stops the load with that error, leaving
      the lines before it appended. */
  method LoadCsv(content: string, images: Vector<Matrix>, labels: Vector<nat>)
    returns (error: Option<ParseError>)
    modifies images, labels
    ensures error == Load(FileLines(content)).error
    ensures images.elems == old(images.elems) + ImagesOf(Load(FileLines(content)).records)
    ensures labels.elems == old(labels.elems) + LabelsOf(Load(FileLines(content)).records)
  {
    var lines := FileLines(content);
    ghost var done: seq<Record> := [];
    var n := 0;
    while n < |lines|
      invariant n <= |lines| && |done| == n
      invariant forall j | 0 <= j < n :: ParseRecord(lines[j]) == Ok(done[j])
      invariant images.elems == old(images.elems) + ImagesOf(done)
      invariant labels.elems == old(labels.elems) + LabelsOf(done)
    {
      var category, image := ReadRecord(lines[n]);
      if category.Err? {
        LoadStopsAtError(lines, done);
        return Some(category.error);
      }
      var img := ReshapeImage(image);
      ghost var rec := Record(category.value, image[..]);
      assert ParseRecord(lines[n]) == Ok(rec);
      images.PushBack(img);
      labels.PushBack(category.value);
      assert ImagesOf(done + [rec]) == ImagesOf(done) + [img];
      assert LabelsOf(done + [rec]) == LabelsOf(done) + [category.value];
      done := done + [rec];
      n := n + 1;
    }
    LoadAllLines(lines, done);
    error := None;
  }
}
