/** The tokenizer for comma-separated lists of the WAL viewer (src/walinfo.c). */
module CsvTokens {
  import opened Text

  const CSV_BUFFER := 1024
  const TOKEN_SIZE := 256

  /** The pieces between the commas. */
  function Fields(s: string): (f: seq<string>)
    ensures f != []
  {
    var i := IndexOf(s, ',');
    if i == |s| then [s] else [s[..i]] + Fields(s[i + 1..])
  }

  /** The fields that are not blank, trimmed and cut to the size of a token. */
  function Kept(fields: seq<string>): (k: seq<string>)
    ensures |k| <= |fields|
  {
    if fields == [] then []
    else (if Trim(fields[0]) == "" then [] else [Print(Trim(fields[0]), TOKEN_SIZE)]) + Kept(fields[1..])
  }

  function FirstOf(tokens: seq<string>, max: int): seq<string>
  {
    if max <= 0 then [] else if |tokens| <= max then tokens else tokens[..max]
  }

  /** The tokens of a list: of its first 1023 characters, the first `max` kept fields. */
  function Tokens(csv: string, max: int): seq<string>
  {
    FirstOf(Kept(Fields(Print(csv, CSV_BUFFER))), max)
  }

  /** The first field of a text, and what follows it. */
  lemma FirstField(s: string, i: nat)
    requires i <= |s| && ',' !in s[..i] && (i < |s| ==> s[i] == ',')
    ensures Fields(s) == [s[..i]] + if i == |s| then [] else Fields(s[i + 1..])
  {
    hide IndexOf;
    IndexOfUnique(s, ',', i);
    assert s[..|s|] == s;
  }

  lemma TrimSpace(s: string)
    requires s != "" && IsSpace(s[0])
    ensures Trim(s) == Trim(s[1..])
  {
    assert TrimLeft(s) == TrimLeft(s[1..]);
  }

  /** White space before a field is dropped. */
  lemma SkipSpace(s: string)
    requires s != "" && IsSpace(s[0])
    ensures Kept(Fields(s)) == Kept(Fields(s[1..]))
  {
    hide Trim, Fields;
    var i := 1 + IndexOf(s[1..], ',');
    assert s[..i] == [s[0]] + s[1..][..i - 1];
    FirstField(s, i);
    FirstField(s[1..], i - 1);
    TrimSpace(s[..i]);
    assert s[..i][1..] == s[1..][..i - 1];
    assert i < |s| ==> s[i + 1..] == s[1..][i..];
  }

  /** What the field `s[..i]`, with its core `s[..t]`, adds to the tokens. */
  lemma OneField(s: string, i: nat, t: nat)
    requires t <= i <= |s| && ',' !in s[..i] && (i < |s| ==> s[i] == ',')
    requires (t > 0 ==> !IsSpace(s[0]) && !IsSpace(s[t - 1])) && forall k :: t <= k < i ==> IsSpace(s[k])
    ensures Kept(Fields(s)) ==
            (if t == 0 then [] else [Print(s[..t], TOKEN_SIZE)]) + (if i == |s| then [] else Kept(Fields(s[i + 1..])))
  {
    hide Trim, Fields, IsSpace, Kept;
    FirstField(s, i);
    CoreOfField(s, i, t);
    KeptFront(s[..i], if i == |s| then [] else Fields(s[i + 1..]));
  }

  lemma CoreOfField(s: string, i: nat, t: nat)
    requires t <= i <= |s|
    requires (t > 0 ==> !IsSpace(s[0]) && !IsSpace(s[t - 1])) && forall k :: t <= k < i ==> IsSpace(s[k])
    ensures Trim(s[..i]) == s[..t]
  {
    hide Trim, IsSpace;
    TrimPadded("", s[..t], s[t..i]);
    assert "" + s[..t] + s[t..i] == s[..i];
  }

  lemma KeptFront(field: string, rest: seq<string>)
    ensures Kept([field] + rest) ==
            (if Trim(field) == "" then [] else [Print(Trim(field), TOKEN_SIZE)]) + if rest == [] then [] else Kept(rest)
  {
    hide Trim;
    assert ([field] + rest)[1..] == rest;
  }

  lemma NoTokens()
    ensures Kept(Fields("")) == []
  {}

  /** The end of the field that starts at `start` with no white space, and the end of its core. */
  method NextField(buf: string, start: nat) returns (p: nat, t: nat)
    requires start < |buf| && !IsSpace(buf[start])
    ensures start <= t <= p <= |buf| && (p < |buf| ==> buf[p] == ',')
    ensures Kept(Fields(buf[start..])) ==
            (if t == start then [] else [Print(buf[start..t], TOKEN_SIZE)])
            + (if p == |buf| then [] else Kept(Fields(buf[start..][p - start + 1..])))
  {
    hide Trim, Fields, Kept, IsSpace;
    p := start;
    while p < |buf| && buf[p] != ','
      invariant start <= p <= |buf| && ',' !in buf[start..p]
    {
      assert buf[start..p + 1] == buf[start..p] + [buf[p]];
      p := p + 1;
    }
    t := p;
    while t > start && IsSpace(buf[t - 1])
      invariant start <= t <= p && forall k :: t <= k < p ==> IsSpace(buf[k])
    {
      t := t - 1;
    }
    ghost var rest := buf[start..];
    assert rest[..p - start] == buf[start..p] && rest[..t - start] == buf[start..t];
    OneField(rest, p - start, t - start);
  }

  /** Splits a list in place. */
  method SplitCsvTrim(csv: string, maxTokens: int) returns (tokens: seq<string>)
    ensures tokens == Tokens(csv, maxTokens)
  {
    hide Trim, Fields, Kept, IsSpace;
    tokens := [];
    if csv == "" || maxTokens <= 0 {
      NoTokens();
      return;
    }
    var buf := Print(csv, CSV_BUFFER);
    ghost var all := Kept(Fields(buf));
    var p := 0;
    assert buf[0..] == buf;
    while p < |buf| && |tokens| < maxTokens
      invariant 0 <= p <= |buf| && |tokens| <= maxTokens
      invariant tokens + Kept(Fields(buf[p..])) == all
    {
      p := SkipBlanks(buf, p);
      if p == |buf| {
        break;
      }
      var start, t := p, 0;
      p, t := NextField(buf, start);
      assert p < |buf| ==> buf[start..][p - start + 1..] == buf[p + 1..];
      if t > start {
        tokens := tokens + [Print(buf[start..t], TOKEN_SIZE)];
      }
      if p == |buf| {
        AtTheEnd(buf);
        break;
      }
      p := p + 1;
    }
    AtTheEnd(buf);
    Enough(tokens, Kept(Fields(buf[p..])), maxTokens);
  }

  /** Moves over the white space before a field. */
  method SkipBlanks(buf: string, start: nat) returns (p: nat)
    requires start <= |buf|
    ensures start <= p <= |buf| && (p < |buf| ==> !IsSpace(buf[p]))
    ensures Kept(Fields(buf[p..])) == Kept(Fields(buf[start..]))
  {
    hide Fields, Kept, IsSpace;
    p := start;
    while p < |buf| && IsSpace(buf[p])
      invariant start <= p <= |buf|
      invariant Kept(Fields(buf[p..])) == Kept(Fields(buf[start..]))
    {
      SkipSpace(buf[p..]);
      assert buf[p..][1..] == buf[p + 1..];
      p := p + 1;
    }
  }

  lemma AtTheEnd(buf: string)
    ensures Kept(Fields(buf[|buf|..])) == []
  {
    hide Fields, Kept;
    NoTokens();
    assert buf[|buf|..] == "";
  }

  /** The tokens are enough when none is left or there is no more room. */
  lemma Enough(tokens: seq<string>, rest: seq<string>, max: int)
    requires |tokens| <= max && (rest == [] || |tokens| == max)
    ensures FirstOf(tokens + rest, max) == tokens
  {}

  // ----- joining and splitting -----

  function Join(tokens: seq<string>): string
  {
    if tokens == [] then "" else if |tokens| == 1 then tokens[0] else tokens[0] + "," + Join(tokens[1..])
  }

  /** A token that is kept as it is. */
  predicate PlainToken(t: string)
  {
    t != "" && Trimmed(t) && ',' !in t && |t| < TOKEN_SIZE
  }

  lemma {:induction false} FieldsOfJoin(tokens: seq<string>)
    requires tokens != [] && forall i :: 0 <= i < |tokens| ==> ',' !in tokens[i]
    ensures Fields(Join(tokens)) == tokens
  {
    hide Fields;
    var s := Join(tokens);
    if |tokens| == 1 {
      assert s[..|s|] == s;
      FirstField(s, |s|);
    } else {
      var i := |tokens[0]|;
      assert s[..i] == tokens[0] && s[i] == ',' && s[i + 1..] == Join(tokens[1..]);
      FirstField(s, i);
      FieldsOfJoin(tokens[1..]);
    }
  }

  lemma {:induction false} FieldsHaveNoComma(s: string)
    ensures forall i :: 0 <= i < |Fields(s)| ==> ',' !in Fields(s)[i]
  {
    var i := IndexOf(s, ',');
    if i < |s| {
      FieldsHaveNoComma(s[i + 1..]);
    } else {
      assert s[..i] == s;
    }
  }

  lemma TokenInField(f: string)
    ensures forall c :: c in Print(Trim(f), TOKEN_SIZE) ==> c in f
  {
    hide Trim, IsSpace;
    var a, b := TrimShape(f);
    var token := Print(Trim(f), TOKEN_SIZE);
    forall c | c in token
      ensures c in f
    {
      var i :| 0 <= i < |token| && token[i] == c;
      assert f[|a| + i] == c;
    }
  }

  lemma {:induction false} KeptHaveNoComma(fields: seq<string>)
    requires forall i :: 0 <= i < |fields| ==> ',' !in fields[i]
    ensures forall i :: 0 <= i < |Kept(fields)| ==> ',' !in Kept(fields)[i]
  {
    hide Trim;
    if fields != [] {
      TokenInField(fields[0]);
      KeptHaveNoComma(fields[1..]);
    }
  }

  /** All fields are kept as they are exactly if all of them are plain. */
  lemma {:induction false} KeptAll(fields: seq<string>)
    requires forall i :: 0 <= i < |fields| ==> ',' !in fields[i]
    ensures Kept(fields) == fields <==> forall i :: 0 <= i < |fields| ==> PlainToken(fields[i])
  {
    hide Trim;
    if fields != [] {
      var f := fields[0];
      KeptAll(fields[1..]);
      var a, b := TrimShape(f);
      if PlainToken(f) {
        TrimTrimmed(f);
      }
      if Kept(fields) == fields {
        assert Kept(fields)[0] == Print(Trim(f), TOKEN_SIZE) == f;
        assert Kept(fields)[1..] == Kept(fields[1..]) == fields[1..];
        assert PlainToken(f);
      }
    }
  }

  /** Splitting the comma-join of a list of tokens that fits the buffer gives the list back if and
      only if every token is plain and there are not too many of them. */
  lemma SplitOfJoin(tokens: seq<string>, max: nat)
    requires |Join(tokens)| < CSV_BUFFER
    ensures Tokens(Join(tokens), max) == tokens <==>
            |tokens| <= max && forall i :: 0 <= i < |tokens| ==> PlainToken(tokens[i])
  {
    hide Kept, Fields, PlainToken;
    var s := Join(tokens);
    var kept := Kept(Fields(s));
    NoTokens();
    if tokens != [] {
      FieldsHaveNoComma(s);
      KeptHaveNoComma(Fields(s));
      if Tokens(s, max) == tokens || forall i :: 0 <= i < |tokens| ==> PlainToken(tokens[i]) {
        forall i | 0 <= i < |tokens|
          ensures ',' !in tokens[i]
        {
          if Tokens(s, max) == tokens {
            assert tokens[i] == kept[i];
          } else {
            PlainHasNoComma(tokens[i]);
          }
        }
        FieldsOfJoin(tokens);
        KeptAll(tokens);
      }
    }
  }

  lemma PlainHasNoComma(t: string)
    requires PlainToken(t)
    ensures ',' !in t
  {}

  // ----- any list -----

  /** What is left of the fields: the texts that are not empty, each cut to 255 characters. */
  function Shown(texts: seq<string>): seq<string>
  {
    if texts == [] then []
    else (if texts[0] == "" then [] else [if |texts[0]| <= 255 then texts[0] else texts[0][..255]]) + Shown(texts[1..])
  }

  /** The fields are the texts with white space around them. */
  ghost predicate Padded(fields: seq<string>, texts: seq<string>)
  {
    |fields| == |texts| && forall i :: 0 <= i < |texts| ==> Surrounds(fields[i], texts[i])
  }

  ghost predicate Surrounds(field: string, text: string)
  {
    Solid(text) && ',' !in field && exists a, b :: White(a) && White(b) && field == a + text + b
  }

  lemma {:induction false} KeptArePadded(fields: seq<string>, texts: seq<string>)
    requires Padded(fields, texts)
    ensures Kept(fields) == Shown(texts)
  {
    hide Trim, Solid, White;
    if fields != [] {
      KeptArePadded(fields[1..], texts[1..]);
      assert Surrounds(fields[0], texts[0]);
      var a, b :| White(a) && White(b) && fields[0] == a + texts[0] + b;
      TrimMeaning(a, texts[0], b);
    }
  }

  /** The tokens of any list: its fields without the white space around them, empty ones dropped and long ones
      cut, and of these the first `max`; what is behind 1023 characters is not read. */
  lemma TokensMeaning(fields: seq<string>, texts: seq<string>, max: nat, csv: string)
    requires fields != [] && Padded(fields, texts)
    requires if |csv| <= 1023 then csv == Join(fields) else csv[..1023] == Join(fields)
    ensures var tokens := Shown(texts);
            Tokens(csv, max) == if |tokens| <= max then tokens else tokens[..max]
  {
    hide Kept, Fields, Join, Surrounds;
    forall i | 0 <= i < |fields|
      ensures ',' !in fields[i]
    {
      NoComma(fields[i], texts[i]);
    }
    KeptArePadded(fields, texts);
    FieldsOfJoin(fields);
  }

  lemma NoComma(field: string, text: string)
    requires Surrounds(field, text)
    ensures ',' !in field
  {}
}
