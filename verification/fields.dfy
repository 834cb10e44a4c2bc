/** Splitting a CSV line into fields, and the std::stringstream that
    `std::getline(ss, value, ',')` reads those fields from. */
module Fields {

  /** The delimiter load_csv passes to std::getline. */
  const Comma := ','

  /** The pieces of `s` between occurrences of `d`. There is always at least
      one piece: the empty string splits into one empty field, and a trailing
      delimiter ends with an empty field. */
  function Split(s: string, d: char): (fs: seq<string>)
    ensures |fs| >= 1
  {
    if s == [] then [[]]
    else
      var tail := Split(s[1..], d);
      if s[0] == d then [[]] + tail
      else [[s[0]] + tail[0]] + tail[1..]
  }

  /** No field holds the delimiter. */
  lemma {:induction false} SplitHasNoDelimiter(s: string, d: char)
    ensures forall i | 0 <= i < |Split(s, d)| :: d !in Split(s, d)[i]
  {
    if s != [] {
      SplitHasNoDelimiter(s[1..], d);
    }
  }

  /** The pieces glued back together, one `d` between each two. */
  function Join(fs: seq<string>, d: char): string
    requires |fs| >= 1
  {
    if |fs| == 1 then fs[0] else fs[0] + [d] + Join(fs[1..], d)
  }

  lemma {:induction false} JoinSplit(s: string, d: char)
    ensures Join(Split(s, d), d) == s
  {
    if s != [] {
      var tail := Split(s[1..], d);
      JoinSplit(s[1..], d);
      if s[0] == d {
        assert Split(s, d)[1..] == tail;
      } else if |tail| > 1 {
        assert Split(s, d)[1..] == tail[1..];
      }
    }
  }

  lemma {:induction false} SplitWithoutDelimiter(x: string, d: char)
    requires d !in x
    ensures Split(x, d) == [x]
  {
    if x != [] {
      SplitWithoutDelimiter(x[1..], d);
      assert [x[0]] + x[1..] == x;
    }
  }

  /** Splitting text in which `d` joins two parts gives the fields of the
      first part followed by the fields of the second. */
  lemma {:induction false} SplitAppend(x: string, y: string, d: char)
    ensures Split(x + [d] + y, d) == Split(x, d) + Split(y, d)
  {
    if x == [] {
      assert x + [d] + y == [d] + y;
      assert ([d] + y)[1..] == y;
    } else {
      assert (x + [d] + y)[1..] == x[1..] + [d] + y;
      SplitAppend(x[1..], y, d);
    }
  }

  lemma {:induction false} SplitJoin(fs: seq<string>, d: char)
    requires |fs| >= 1
    requires forall i | 0 <= i < |fs| :: d !in fs[i]
    ensures Split(Join(fs, d), d) == fs
  {
    if |fs| == 1 {
      SplitWithoutDelimiter(fs[0], d);
    } else {
      SplitJoin(fs[1..], d);
      SplitAppend(fs[0], Join(fs[1..], d), d);
      SplitWithoutDelimiter(fs[0], d);
      assert [fs[0]] + fs[1..] == fs;
    }
  }

  /** Where field k starts in the joined text: each earlier field and the
      delimiter after it come first. */
  function FieldStart(fs: seq<string>, k: nat): nat
    requires k <= |fs|
  {
    if k == 0 then 0 else FieldStart(fs, k - 1) + |fs[k - 1]| + 1
  }

  lemma {:induction false} FieldStartTail(fs: seq<string>, k: nat)
    requires 1 <= k <= |fs|
    ensures FieldStart(fs, k) == |fs[0]| + 1 + FieldStart(fs[1..], k - 1)
  {
    if k > 1 {
      FieldStartTail(fs, k - 1);
      assert fs[1..][k - 2] == fs[k - 1];
    }
  }

  /** A field and what follows it keep their relative places once a first
      field and a delimiter are put in front. */
  lemma ShiftedSlice(first: string, d: char, rest: string, q: nat, len: nat)
    requires q + len <= |rest|
    ensures var t, o := first + [d] + rest, |first| + 1;
      t[o + q..o + q + len] == rest[q..q + len] &&
      (q + len < |rest| ==> t[o + q + len] == rest[q + len])
  {
  }

  /** In the joined text, field k sits at FieldStart(fs, k) and is followed
      by a delimiter, or by the end of the text when it is the last field. */
  lemma {:induction false} JoinAt(fs: seq<string>, k: nat, d: char)
    requires k < |fs|
    ensures var t, p := Join(fs, d), FieldStart(fs, k);
      p + |fs[k]| <= |t| && t[p..p + |fs[k]|] == fs[k] &&
      (k + 1 < |fs| ==> p + |fs[k]| < |t| && t[p + |fs[k]|] == d) &&
      (k + 1 == |fs| ==> p + |fs[k]| == |t|)
  {
    if |fs| > 1 {
      var rest := Join(fs[1..], d);
      assert Join(fs, d) == fs[0] + [d] + rest;
      if k == 0 {
        assert Join(fs, d)[..|fs[0]|] == fs[0];
      } else {
        JoinAt(fs[1..], k - 1, d);
        FieldStartTail(fs, k);
        assert fs[1..][k - 1] == fs[k];
        ShiftedSlice(fs[0], d, rest, FieldStart(fs[1..], k - 1), |fs[k]|);
      }
    }
  }

  /** A std::stringstream holding one line, read with
      `std::getline(ss, value, ',')`. `pos` is the read position; `eof` and
      `fail` are the stream's eofbit and failbit. The ghost field `taken`
      counts the fields handed out so far. */
  class StringStream {
    const text: string
    var pos: nat
    var eof: bool
    var fail: bool
    ghost var taken: nat

    /** The read position sits at the start of field `taken`, and the
        end-of-file bit is set exactly when every field has been read. */
    ghost predicate Valid()
      reads this
    {
      var fs := Split(text, Comma);
      pos <= |text| && taken <= |fs| && (fail ==> eof) &&
      (taken < |fs| ==> !eof && pos == FieldStart(fs, taken)) &&
      (taken == |fs| ==> eof && pos == |text|)
    }

    constructor (line: string)
      ensures Valid()
      ensures text == line && pos == 0 && !eof && !fail && taken == 0
    {
      text := line;
      pos, eof, fail := 0, false, false;
      taken := 0;
    }

    /** `std::getline(ss, value, ',')`. When the stream is no longer good the
        sentry fails: failbit is set and `value` is handed back untouched.
        Otherwise `value` is replaced by the characters up to the next comma
        or the end of the text; a comma found is consumed, reaching the end
        sets eofbit, and extracting nothing at all sets failbit. */
    method GetLine(value: string) returns (result: string)
      requires Valid()
      modifies this
      ensures Valid()
      ensures old(eof || fail) ==>
        result == value && pos == old(pos) && eof && fail
      ensures !old(eof || fail) ==>
        var e := old(pos) + |result|;
        e <= |text| && result == text[old(pos)..e] && Comma !in result &&
        (e < |text| ==> text[e] == Comma && pos == e + 1 && !eof && !fail) &&
        (e == |text| ==> pos == e && eof && (fail <==> result == []))
      ensures var fs := Split(text, Comma);
        if old(taken) < |fs| then result == fs[old(taken)] && taken == old(taken) + 1
        else result == value && taken == old(taken)
    {
      if eof || fail {
        fail := true;
        return value;
      }
      ghost var fs := Split(text, Comma);
      ghost var f := fs[taken];
      JoinSplit(text, Comma);
      JoinAt(fs, taken, Comma);
      SplitHasNoDelimiter(text, Comma);
      var i := FieldEnd(pos);
      assert i == pos + |f|;
      result := text[pos..i];
      if i < |text| {
        pos := i + 1;
      } else {
        fail := i == pos;
        pos := i;
        eof := true;
      }
      taken := taken + 1;
    }

    /** The index of the first comma at or after `from`, or the end of the
        text when there is none: how far one getline extracts. */
    method FieldEnd(from: nat) returns (e: nat)
      requires from <= |text|
      ensures from <= e <= |text|
      ensures forall j | from <= j < e :: text[j] != Comma
      ensures e < |text| ==> text[e] == Comma
    {
      e := from;
      while e < |text| && text[e] != Comma
        invariant from <= e <= |text|
        invariant forall j | from <= j < e :: text[j] != Comma
      {
        e := e + 1;
      }
    }
  }
}
