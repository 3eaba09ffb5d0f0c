/** The strings that the proxy picks out of message payloads: the query of a
    Query or Parse message, the statement name of a Bind message and the
    message text of an ErrorResponse. None of these payloads is trusted to be
    well formed. */
module PgFields {
  import opened Bytes

  /** The bytes before the first NUL, or all of them when there is none. */
  function CString(data: text): (r: text)
    ensures NUL !in r && r <= data
    ensures |r| < |data| ==> data[|r|] == NUL
  {
    if data == [] || data[0] == NUL then [] else [data[0]] + CString(data[1..])
  }

  lemma {:induction false} CStringUnique(data: text, r: text)
    requires NUL !in r && r <= data
    requires |r| < |data| ==> data[|r|] == NUL
    ensures r == CString(data)
  {
    if r != [] {
      assert data[0] == r[0] && r[0] in r;
      assert r == [r[0]] + r[1..];
      CStringUnique(data[1..], r[1..]);
    }
  }

  /** The string after the first NUL: a Parse message's query, a Bind message's
      statement name. */
  function SecondField(data: text): text {
    var i := |CString(data)| + 1;
    if i >= |data| then [] else CString(data[i..])
  }

  function Drop(s: text, n: nat): text {
    if n >= |s| then [] else s[n..]
  }

  /** The value of the first 'M' field of an ErrorResponse. */
  function ErrorText(payload: text): text
    decreases |payload|
  {
    if payload == [] || payload[0] == NUL then []
    else
      var value := CString(payload[1..]);
      if payload[0] == 'M' then value else ErrorText(Drop(payload, |value| + 2))
  }

  method ExtractString(data: text) returns (r: text)
    ensures r == CString(data)
  {
    for i := 0 to |data|
      invariant NUL !in data[..i]
    {
      if data[i] == NUL {
        CStringUnique(data, data[..i]);
        return data[..i];
      }
    }
    assert data[..|data|] == data;
    CStringUnique(data, data);
    return data;
  }

  /** The scan that extractParseQuery and extractBindStatementName share. */
  method ExtractSecond(data: text) returns (r: text)
    ensures r == SecondField(data)
  {
    var i := 0;
    while i < |data| && data[i] != NUL
      invariant 0 <= i <= |data|
      invariant NUL !in data[..i]
    {
      i := i + 1;
    }
    CStringUnique(data, data[..i]);
    i := i + 1;
    if i >= |data| {
      return [];
    }
    r := ExtractString(data[i..]);
  }

  method ExtractErrorMessage(payload: text) returns (r: text)
    ensures r == ErrorText(payload)
  {
    var i := 0;
    while i < |payload|
      invariant 0 <= i
      invariant ErrorText(payload) == ErrorText(Drop(payload, i))
    {
      ghost var tail := payload[i..];
      var fieldType := payload[i];
      i := i + 1;
      if fieldType == NUL {
        break;
      }
      var value := ExtractString(payload[i..]);
      assert tail[1..] == payload[i..];
      if fieldType == 'M' {
        return value;
      }
      i := i + |value| + 1;
      assert Drop(tail, |value| + 2) == Drop(payload, i);
    }
    return [];
  }

  /** A well-formed field of an ErrorResponse. */
  datatype Field = Field(kind: byte, value: text)

  predicate ValidField(f: Field) {
    f.kind != NUL && NUL !in f.value
  }

  function EncodeFields(fs: seq<Field>): text {
    if fs == [] then [NUL] else [fs[0].kind] + fs[0].value + [NUL] + EncodeFields(fs[1..])
  }

  lemma CStringOf(value: text, rest: text)
    requires NUL !in value
    ensures CString(value + [NUL] + rest) == value
  {
    CStringUnique(value + [NUL] + rest, value);
  }

  /** A message field's value is the text; any other field is skipped. */
  lemma ErrorTextStep(f: Field, rest: text)
    requires ValidField(f)
    ensures ErrorText([f.kind] + f.value + [NUL] + rest) == if f.kind == 'M' then f.value else ErrorText(rest)
  {
    var payload := [f.kind] + f.value + [NUL] + rest;
    CStringOf(f.value, rest);
    assert payload[1..] == f.value + [NUL] + rest;
    assert Drop(payload, |f.value| + 2) == rest;
  }

  /** On every well-formed ErrorResponse, the text found is the value of the
      first message field, wherever it stands, and empty only without one. */
  lemma {:induction false} ErrorTextOfFields(fs: seq<Field>, k: nat)
    requires forall i :: 0 <= i < |fs| ==> ValidField(fs[i])
    requires k <= |fs|
    requires forall i :: 0 <= i < k ==> fs[i].kind != 'M'
    requires k < |fs| ==> fs[k].kind == 'M'
    ensures ErrorText(EncodeFields(fs)) == if k < |fs| then fs[k].value else []
  {
    if fs != [] {
      ErrorTextStep(fs[0], EncodeFields(fs[1..]));
      if k > 0 {
        ErrorTextOfFields(fs[1..], k - 1);
      }
    }
  }

  /** A Parse payload is "name NUL query NUL ..."; a Bind payload is
      "portal NUL statement NUL ...". */
  lemma FieldsOfTwoStrings(first: text, second: text, rest: text)
    requires NUL !in first && NUL !in second
    ensures var payload := first + [NUL] + (second + [NUL] + rest);
            CString(payload) == first && SecondField(payload) == second
  {
    var tail := second + [NUL] + rest;
    CStringOf(first, tail);
    CStringOf(second, rest);
    assert (first + [NUL] + tail)[|first| + 1..] == tail;
  }
}
