/** `config_get`, `config_set` and `config_del` (src/config.c) as functions on the lines of a file, and which
    bindings and headers are read back as they are written. */
module ConfigLines {
  import opened Text
  import opened ConfigScan

  const MISC_LENGTH := 128
  const MAX_LINE_LENGTH := 4096
  const MAX_LINES := 8192

  /** The header text that the scanners compare with. */
  function HeaderOf(section: string): string
  {
    Print("[" + section + "]", MISC_LENGTH)
  }

  /** The last header line of a section, and the first and the last line that binds a key in it. */
  function SectionAt(lines: seq<string>, section: string): Option<nat>
  {
    LastHeader(Items(lines), HeaderOf(section), |lines|)
  }

  function FirstAt(lines: seq<string>, section: string, key: string): Option<nat>
  {
    FirstKey(Items(lines), HeaderOf(section), key, |lines|)
  }

  function LastAt(lines: seq<string>, section: string, key: string): Option<nat>
  {
    LastKey(Items(lines), HeaderOf(section), key, |lines|)
  }

  function HeaderLine(section: string): string
  {
    Print("[" + section + "]\n", MAX_LINE_LENGTH)
  }

  function KeyLine(key: string, value: string): string
  {
    Print(key + " = " + value + "\n", MAX_LINE_LENGTH)
  }

  function Lookup(lines: seq<string>, section: string, key: string): Option<string>
  {
    Get(Items(lines), HeaderOf(section), key)
  }

  /** The lines that `set` leaves above the binding that it writes: those above the first binding
      of the key, or those up to the last content of the section, or all and a new header. */
  function Above(lines: seq<string>, section: string, key: string): seq<string>
  {
    var items, n, h := Items(lines), |lines|, HeaderOf(section);
    if FirstKey(items, h, key, n).Some? then lines[..FirstKey(items, h, key, n).value]
    else if LastHeader(items, h, n).Some? then
      var a := LastHeader(items, h, n).value;
      lines[..InsertAt(items, a, NextHeader(items, a + 1))]
    else lines + (if n > 0 then ["\n"] else []) + [HeaderLine(section)]
  }

  /** The lines that it leaves below. */
  function Below(lines: seq<string>, section: string, key: string): seq<string>
  {
    var items, n, h := Items(lines), |lines|, HeaderOf(section);
    if FirstKey(items, h, key, n).Some? then lines[FirstKey(items, h, key, n).value + 1..]
    else if LastHeader(items, h, n).Some? then
      var a := LastHeader(items, h, n).value;
      lines[InsertAt(items, a, NextHeader(items, a + 1))..]
    else []
  }

  /** The line limit leaves room for the new lines. */
  predicate HasRoom(lines: seq<string>, section: string, key: string)
  {
    var items, n, h := Items(lines), |lines|, HeaderOf(section);
    if FirstKey(items, h, key, n).Some? then true
    else if LastHeader(items, h, n).Some? then n < MAX_LINES
    else n + 3 < MAX_LINES
  }

  /** None stands for the error "too many lines". */
  function SetLines(lines: seq<string>, section: string, key: string, value: string): Option<seq<string>>
  {
    if HasRoom(lines, section, key) then
      Some(Above(lines, section, key) + [KeyLine(key, value)] + Below(lines, section, key))
    else None
  }

  function Without(lines: seq<string>, a: nat, e: nat): seq<string>
    requires a <= e <= |lines|
  {
    lines[..a] + lines[e..]
  }

  /** None stands for the error "not found". */
  function DelKeyLines(lines: seq<string>, section: string, key: string): Option<seq<string>>
  {
    match LastAt(lines, section, key)
    case Some(j) => Some(Without(lines, j, j + 1))
    case None => None
  }

  function DelSectionLines(lines: seq<string>, section: string): Option<seq<string>>
  {
    match SectionAt(lines, section)
    case Some(a) => Some(Without(lines, a, NextHeader(Items(lines), a + 1)))
    case None => None
  }

  // ----- which keys, sections and values survive a line of text -----

  /** A key that is read back as written. */
  predicate PlainKey(key: string)
  {
    Trimmed(key) && '=' !in key && (key != "" ==> key[0] != '#' && key[0] != ';' && key[0] != '[')
  }

  /** A section name whose header line is recognised. */
  predicate PlainSection(section: string)
  {
    IndexOf(section, ']') == if |section| < MISC_LENGTH - 3 then |section| else MISC_LENGTH - 3
  }

  predicate Fits(key: string, value: string)
  {
    |key| + |value| + 4 < MAX_LINE_LENGTH && '\n' !in value
  }

  lemma ClassifyBinding(line: string, pre: string, core: string, post: string, e: nat)
    requires line == pre + core + post && AllSpace(pre) && AllSpace(post) && Trimmed(core)
    requires e < |core| && core[e] == '=' && '=' !in core[..e]
    requires core[0] != '#' && core[0] != ';' && core[0] != '['
    ensures var v := Trim(core[e + 1..]);
            Classify(line) == Binding(Trim(core[..e]), v[..IndexOf(v, '\n')])
  {
    hide AllSpace, Trimmed, Trim, IndexOf;
    TrimPadded(pre, core, post);
    IndexOfUnique(core, '=', e);
  }

  lemma SpacesAround(a: string)
    requires AllSpace(a)
    ensures AllSpace(" " + a) && AllSpace(a + "\n") && AllSpace(" " + a + "\n") && AllSpace("") && AllSpace(" ") && AllSpace("\n")
  {}

  /** The text after the '=' of a written binding, without the white space that ends the line. */
  lemma ValueShape(value: string) returns (tail: string, post: string)
    ensures " " + value + "\n" == tail + post && AllSpace(post) && Trim(tail) == Trim(value)
    ensures tail != "" ==> !IsSpace(tail[|tail| - 1])
  {
    hide AllSpace, Trim, IsSpace;
    var a, b := TrimShape(value);
    var tv := Trim(value);
    SpacesAround(a);
    SpacesAround(b);
    if tv == "" {
      tail, post := "", " " + value + "\n";
      AllSpaceValue(value);
      TrimTrimmed("");
    } else {
      tail, post := " " + a + tv, b + "\n";
      TrimPadded(" " + a, tv, "");
      assert " " + a + tv + "" == tail;
      assert tail[|tail| - 1] == tv[|tv| - 1];
    }
  }

  lemma AllSpaceValue(value: string)
    requires Trim(value) == ""
    ensures AllSpace(" " + value + "\n")
  {
    var a, b := TrimShape(value);
    assert value == a + b;
  }

  /** The shape of a written binding: white space around "key = value", the value trimmed. */
  lemma KeyLineShape(key: string, value: string) returns (head: string, core: string, post: string)
    requires PlainKey(key) && Fits(key, value)
    ensures KeyLine(key, value) == (if key == "" then " " else "") + core + post
    ensures AllSpace(post) && Trimmed(core)
    ensures head == (if key == "" then "" else key + " ") && '=' !in head
    ensures |head| < |core| && core[|head|] == '=' && core[..|head|] == head
    ensures Trim(core[|head| + 1..]) == Trim(value)
    ensures core[0] != '#' && core[0] != ';' && core[0] != '['
  {
    hide AllSpace, Trim;
    var tail;
    tail, post := ValueShape(value);
    head := if key == "" then "" else key + " ";
    core := head + "=" + tail;
    assert core[|head| + 1..] == tail;
    assert core[|core| - 1] == if tail == "" then '=' else tail[|tail| - 1];
    var line := key + " = " + value + "\n";
    assert line == (if key == "" then " " else "") + head + "=" + (" " + value + "\n");
  }

  lemma CutAtAbsent(s: string, c: char)
    requires c !in s
    ensures s[..IndexOf(s, c)] == s
  {}

  lemma TrimKeepsOut(s: string, c: char)
    requires c !in s
    ensures c !in Trim(s)
  {
    var a, b := TrimShape(s);
  }

  lemma PlainKeyReads(key: string, value: string)
    requires Fits(key, value) && PlainKey(key)
    ensures Classify(KeyLine(key, value)) == Binding(key, Trim(value))
  {
    hide AllSpace, Trim, Classify, Trimmed, KeyLine, IndexOf;
    var head, core, post := KeyLineShape(key, value);
    var pre := if key == "" then " " else "";
    SpacesAround("");
    TrimPadded("", key, if key == "" then "" else " ");
    assert "" + key + (if key == "" then "" else " ") == head;
    TrimKeepsOut(value, '\n');
    CutAtAbsent(Trim(value), '\n');
    ClassifyBinding(KeyLine(key, value), pre, core, post, |head|);
  }

  /** A written binding is read back exactly when its key is plain. */
  lemma KeyLineReads(key: string, value: string)
    requires Fits(key, value)
    ensures Classify(KeyLine(key, value)) == Binding(key, Trim(value)) <==> PlainKey(key)
  {
    hide Classify, KeyLine, PlainKey;
    if PlainKey(key) {
      PlainKeyReads(key, value);
    } else if Classify(KeyLine(key, value)).Binding? {
      BoundKeysArePlain(KeyLine(key, value));
    }
  }

  /** A prefix of a trimmed string loses nothing at its front when it is trimmed. */
  lemma TrimPrefix(t: string, e: nat)
    requires e <= |t| && Trimmed(t)
    ensures Trim(t[..e]) <= t
  {
    hide Trim, IsSpace;
    var a, b := TrimShape(t[..e]);
    assert t == a + (Trim(t[..e]) + b + t[e..]);
  }

  lemma BoundKeysArePlain(line: string)
    requires Classify(line).Binding?
    ensures PlainKey(Classify(line).key)
  {
    hide Trim, IsSpace, IndexOf;
    var t := Trim(line);
    var e := IndexOf(t, '=');
    var _, _ := TrimShape(line);
    var _, _ := TrimShape(t[..e]);
    TrimPrefix(t, e);
    TrimKeepsOut(t[..e], '=');
  }

  /** A written header is recognised exactly when the section name is plain. */
  lemma HeaderLineReads(section: string)
    requires |section| + 3 < MAX_LINE_LENGTH
    ensures Classify(HeaderLine(section)) == Header(HeaderOf(section)) <==> PlainSection(section)
  {
    var t := "[" + section + "]";
    HeaderTrimmed(section);
    var i := IndexOf(section, ']');
    assert t[..i + 1] == "[" + section[..i];
    IndexOfUnique(t, ']', i + 1);
    assert CutAfterBracket(t) == t[..i + 2];
    hide Trim, IndexOf;
    assert Classify(HeaderLine(section)) == Header(t[..i + 2]);
  }

  lemma HeaderTrimmed(section: string)
    requires |section| + 3 < MAX_LINE_LENGTH
    ensures Trim(HeaderLine(section)) == "[" + section + "]"
  {
    hide Trim, AllSpace;
    var t := "[" + section + "]";
    SpacesAround("");
    TrimPadded("", t, "\n");
    assert "" + t + "\n" == "[" + section + "]\n";
  }
}
