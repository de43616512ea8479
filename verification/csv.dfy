/** CSV records as section 2 of RFC 4180 defines them: fields separated by commas,
    an escaped field enclosed in double quotes with every inner double quote
    doubled, a non-escaped field free of commas, double quotes and line breaks.
    The writer is what `formatAsCsv` does; the reader is the RFC's grammar, used
    to show that what is written reads back field by field. */
module Csv {
  import opened Values
  import opened JsString

  /** `s.replace(/"/g, '""')`. */
  function DoubleQuotes(s: string): (r: string)
    ensures |r| >= |s|
    decreases |s|
  {
    if |s| == 0 then ""
    else (if s[0] == '"' then "\"\"" else [s[0]]) + DoubleQuotes(s[1..])
  }

  /** `` `"${s.replace(/"/g, '""')}"` ``: an escaped field. */
  function Quote(s: string): (r: string)
    ensures |r| >= 2 && r[0] == '"' && r[|r| - 1] == '"'
  {
    "\"" + DoubleQuotes(s) + "\""
  }

  /** Reads the inside of an escaped field, just after its opening quote: a doubled
      quote stands for one quote and a lone quote closes the field. Gives the
      field's text and what follows the closing quote, or `None` when the field
      is never closed. */
  function ReadQuoted(s: string): (r: Option<(string, string)>)
    ensures r.Some? ==> |r.value.1| < |s|
    decreases |s|
  {
    if |s| == 0 then None
    else if s[0] == '"' then
      if |s| >= 2 && s[1] == '"' then
        match ReadQuoted(s[2..])
        case None => None
        case Some((t, rest)) => Some(("\"" + t, rest))
      else Some(("", s[1..]))
    else
      match ReadQuoted(s[1..])
      case None => None
      case Some((t, rest)) => Some(([s[0]] + t, rest))
  }

  /** Reading the doubled text back stops at the closing quote and undoes the
      doubling. */
  lemma {:induction false} ReadQuotedDoubled(t: string, rest: string)
    requires |rest| == 0 || rest[0] != '"'
    ensures ReadQuoted(DoubleQuotes(t) + "\"" + rest) == Some((t, rest))
    decreases |t|
  {
    var s := DoubleQuotes(t) + "\"" + rest;
    if |t| == 0 {
      assert s == "\"" + rest;
      assert s[1..] == rest;
    } else if t[0] == '"' {
      assert s == "\"\"" + (DoubleQuotes(t[1..]) + "\"" + rest);
      assert s[2..] == DoubleQuotes(t[1..]) + "\"" + rest;
      ReadQuotedDoubled(t[1..], rest);
      assert "\"" + t[1..] == t;
    } else {
      assert s == [t[0]] + (DoubleQuotes(t[1..]) + "\"" + rest);
      assert s[1..] == DoubleQuotes(t[1..]) + "\"" + rest;
      ReadQuotedDoubled(t[1..], rest);
      assert [t[0]] + t[1..] == t;
    }
  }

  /** The text of a lone escaped field, or `None` when the input is not one. */
  function Unquote(q: string): (r: Option<string>)
    ensures r.Some? ==> |q| >= 2 && q[0] == '"'
  {
    if |q| > 0 && q[0] == '"' then
      match ReadQuoted(q[1..])
      case Some((t, rest)) => if |rest| == 0 then Some(t) else None
      case None => None
    else None
  }

  /** Un-doubling recovers the field. */
  lemma UnquoteQuote(s: string)
    ensures Unquote(Quote(s)) == Some(s)
  {
    ReadQuotedDoubled(s, "");
    assert Quote(s)[1..] == DoubleQuotes(s) + "\"" + "";
  }

  /** A field as written: escaped, or written as it is. */
  datatype Field = Escaped(text: string) | Plain(text: string)

  /** What RFC 4180 allows in a non-escaped field. */
  predicate PlainOk(t: string) {
    ',' !in t && '"' !in t && '\r' !in t && '\n' !in t
  }

  function EncodeField(f: Field): string {
    match f
    case Escaped(t) => Quote(t)
    case Plain(t) => t
  }

  function EncodeFields(fs: seq<Field>): (r: seq<string>)
    ensures |r| == |fs|
    ensures forall k :: 0 <= k < |fs| ==> r[k] == EncodeField(fs[k])
  {
    seq(|fs|, k requires 0 <= k < |fs| => EncodeField(fs[k]))
  }

  function Texts(fs: seq<Field>): (r: seq<string>)
    ensures |r| == |fs|
    ensures forall k :: 0 <= k < |fs| ==> r[k] == fs[k].text
  {
    seq(|fs|, k requires 0 <= k < |fs| => fs[k].text)
  }

  /** `fields.join(',')`: one record. */
  function EncodeRecord(fs: seq<Field>): string {
    Join(EncodeFields(fs), ',')
  }

  /** The record grammar of RFC 4180, read from the left: the texts of the fields,
      or `None` when the input is not a record. */
  function ParseRecord(s: string): (r: Option<seq<string>>)
    ensures r.Some? ==> |r.value| >= 1
    decreases |s|
  {
    if |s| > 0 && s[0] == '"' then
      match ReadQuoted(s[1..])
      case None => None
      case Some((t, rest)) =>
        if |rest| == 0 then Some([t])
        else if rest[0] == ',' then
          match ParseRecord(rest[1..])
          case None => None
          case Some(more) => Some([t] + more)
        else None
    else
      var i := CharIndex(s, ',');
      var t := s[..i];
      if '"' in t then None
      else if i == |s| then Some([t])
      else
        match ParseRecord(s[i + 1..])
        case None => None
        case Some(more) => Some([t] + more)
  }

  /** One field, then what follows it. */
  lemma ParseRecordCons(f: Field, tail: string)
    requires f.Plain? ==> PlainOk(f.text)
    requires ParseRecord(tail).Some?
    ensures ParseRecord(EncodeField(f) + [','] + tail) == Some([f.text] + ParseRecord(tail).value)
  {
    match f
    case Escaped(t) => ParseEscapedCons(t, tail);
    case Plain(t) => ParsePlainCons(t, tail);
  }

  lemma ParseEscapedCons(t: string, tail: string)
    requires ParseRecord(tail).Some?
    ensures ParseRecord(Quote(t) + [','] + tail) == Some([t] + ParseRecord(tail).value)
  {
    var rest := [','] + tail;
    EscapedLayout(t, tail);
    ReadQuotedDoubled(t, rest);
    assert rest[1..] == tail;
  }

  lemma EscapedLayout(t: string, tail: string)
    ensures var s := Quote(t) + [','] + tail;
      |s| > 0 && s[0] == '"' && s[1..] == DoubleQuotes(t) + "\"" + ([','] + tail)
  {
  }

  lemma ParsePlainCons(t: string, tail: string)
    requires PlainOk(t)
    requires ParseRecord(tail).Some?
    ensures ParseRecord(t + [','] + tail) == Some([t] + ParseRecord(tail).value)
  {
    var s := t + [','] + tail;
    assert s[..|t|] == t;
    assert s[|t| + 1..] == tail;
    CharIndexIs(s, ',', |t|);
    if |t| > 0 {
      assert s[0] == t[0];
    }
  }

  /** The last field. */
  lemma ParseRecordLast(f: Field)
    requires f.Plain? ==> PlainOk(f.text)
    ensures ParseRecord(EncodeField(f)) == Some([f.text])
  {
    var s := EncodeField(f);
    match f
    case Escaped(t) =>
      assert s[1..] == DoubleQuotes(t) + "\"" + "";
      ReadQuotedDoubled(t, "");
    case Plain(t) =>
      assert forall k :: 0 <= k < |s| ==> s[k] != ',';
      assert s[..CharIndex(s, ',')] == s;
      if |t| > 0 {
        assert s[0] == t[0];
      }
  }

  /** What the writer writes, the reader reads back: the same number of fields
      with the same texts. */
  lemma {:induction false} ParseEncodeRecord(fs: seq<Field>)
    requires |fs| >= 1
    requires forall k :: 0 <= k < |fs| && fs[k].Plain? ==> PlainOk(fs[k].text)
    ensures ParseRecord(EncodeRecord(fs)) == Some(Texts(fs))
    decreases |fs|
  {
    if |fs| == 1 {
      ParseRecordLast(fs[0]);
      assert Texts(fs) == [fs[0].text];
    } else {
      ParseEncodeRecord(fs[1..]);
      EncodeRecordCons(fs);
      ParseRecordCons(fs[0], EncodeRecord(fs[1..]));
    }
  }

  /** A record of several fields is the first field, a comma and the rest. */
  lemma EncodeRecordCons(fs: seq<Field>)
    requires |fs| >= 2
    ensures EncodeRecord(fs) == EncodeField(fs[0]) + [','] + EncodeRecord(fs[1..])
    ensures Texts(fs) == [fs[0].text] + Texts(fs[1..])
  {
    EncodeFieldsTail(fs);
    TextsCons(fs);
  }

  lemma EncodeFieldsTail(fs: seq<Field>)
    requires |fs| >= 1
    ensures EncodeFields(fs)[1..] == EncodeFields(fs[1..])
  {
  }

  lemma TextsCons(fs: seq<Field>)
    requires |fs| >= 1
    ensures Texts(fs) == [fs[0].text] + Texts(fs[1..])
  {
  }
}
