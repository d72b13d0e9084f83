/**
  The cell parameter codec of lib/params.ts: `parseCellTextToParams`
  reads an edited `key: value` text block into a parameter mapping (or
  `null`, the signal to delete the mapping), and `paramsToCellText`
  writes a stored mapping back out as such a block.
*/
module Params {
  import opened Wrappers
  import opened Text

  /** A stored parameter value: a string or a number (an integer here). */
  datatype Value = Str(s: string) | Num(n: int)

  /** `ParamsObject`: parameter name to value. */
  type ParamsObject = map<string, Value>

  /** What `paramsToCellText` is handed: anything that is not an object
      (`null`, `undefined`, a string, a number), or an object given by
      its `Object.entries`, in enumeration order. */
  datatype Stored = NotAnObject | Object(entries: seq<(string, Value)>)

  const MediaTypes: string := "mediatypes"

  predicate IsMediaTypesKey(key: string) {
    Lower(key) == MediaTypes
  }

  /** `String(value)`. */
  function Render(v: Value): string {
    match v
    case Str(s) => s
    case Num(n) => IntToString(n)
  }

  /** The integer coercion: a value matching `/^-?\d+$/` becomes the
      number `parseInt` gives; anything else stays a string. */
  function Coerce(value: string): (v: Value)
    ensures v.Num? <==> IsIntShaped(value)
    ensures v.Str? ==> v.s == value
  {
    if IsIntShaped(value) then Num(ParseInt(value)) else Str(value)
  }

  /** The one key an assignment cannot store: `params['__proto__'] = value`
      on a plain object runs the `Object.prototype.__proto__` setter, which
      ignores a string or a number, so no property is created. */
  const Proto: string := "__proto__"

  /** Keys a line can yield and the encoder writes back as that same line:
      non-empty, trimmed, free of colons and line feeds, not `mediatypes`. */
  predicate LineKey(key: string) {
    && key != []
    && Trim(key) == key
    && ':' !in key
    && '\n' !in key
    && !IsMediaTypesKey(key)
  }

  /** Keys the parser stores and the encoder writes back faithfully: line
      keys other than `__proto__`. */
  predicate ValidKey(key: string) {
    LineKey(key) && key != Proto
  }

  /** Values the parser can store: any number; a trimmed string free of
      colons and line feeds that does not look like an integer. */
  predicate ValidValue(v: Value) {
    match v
    case Num(_) => true
    case Str(s) => Trim(s) == s && ':' !in s && '\n' !in s && !IsIntShaped(s)
  }

  ghost predicate Encodable(m: ParamsObject) {
    forall k :: k in m ==> ValidKey(k) && ValidValue(m[k])
  }

  /** The effect of one line of the loop in `parseCellTextToParams`: the key
      and value it assigns, or `None` when the line is skipped. The key is
      the trimmed text before the first colon; the value is the trimmed text
      between the first colon and the next one, as `line.split(':', 2)`
      gives it. */
  function LineEntry(raw: string): (e: Option<(string, Value)>)
    ensures e.Some? ==> e.value.0 != [] && !IsMediaTypesKey(e.value.0)
  {
    var line := Trim(raw);
    if line == [] || ':' !in line then None
    else
      var (keyRaw, valueRaw) := SplitFirstTwo(line, ':');
      var key := Trim(keyRaw);
      var value := Trim(valueRaw);
      if key == [] || IsMediaTypesKey(key) then None
      else Some((key, Coerce(value)))
  }

  /** Every entry a line without a line feed yields is one the encoder
      writes back as a line that yields it again: the key is trimmed,
      non-empty, colon-free and not `mediatypes`; a string value is trimmed,
      colon-free and not integer-shaped. */
  lemma LineEntryValid(raw: string)
    requires '\n' !in raw && LineEntry(raw).Some?
    ensures LineKey(LineEntry(raw).value.0) && ValidValue(LineEntry(raw).value.1)
  {
    var line := Trim(raw);
    var (keyRaw, valueRaw) := SplitFirstTwo(line, ':');
    TrimChars(raw);
    SplitFirstTwoChars(line, ':', '\n');
    TrimIdempotent(keyRaw);
    TrimIdempotent(valueRaw);
    TrimChars(keyRaw);
    TrimChars(valueRaw);
  }

  /** What each line contributes, in line order. */
  function LineEntries(lines: seq<string>): (es: seq<Option<(string, Value)>>)
  {
    seq(|lines|, i requires 0 <= i < |lines| => LineEntry(lines[i]))
  }

  /** The object built by performing the assignments in order, skipping the
      `None`s; a later assignment to a key overwrites an earlier one. */
  function Assign(es: seq<Option<(string, Value)>>): (m: ParamsObject)
    ensures Proto !in m
    decreases |es|
  {
    if es == [] then map[] else Apply(Assign(es[..|es| - 1]), es[|es| - 1])
  }

  /** One assignment: `params[key] = value`, or nothing for a skipped line. */
  function Apply(m: ParamsObject, e: Option<(string, Value)>): ParamsObject {
    match e
    case None => m
    case Some(kv) => SetProperty(m, kv.0, kv.1)
  }

  /** `params[key] = value` on a plain object: the key then holds the value
      and no other key changes, except that `__proto__` stores nothing. */
  function SetProperty(m: ParamsObject, key: string, v: Value): (r: ParamsObject)
    ensures key == Proto ==> r == m
    ensures key != Proto ==> key in r && r[key] == v
    ensures forall k :: k != key ==> (k in r <==> k in m)
    ensures forall k :: k != key && k in m ==> r[k] == m[k]
  {
    if key == Proto then m else m[key := v]
  }

  /** One more assignment performed. */
  lemma AssignStep(es: seq<Option<(string, Value)>>, i: nat)
    requires i < |es|
    ensures Assign(es[..i + 1]) == Apply(Assign(es[..i]), es[i])
  {
    assert es[..i + 1][..i] == es[..i];
  }

  /** Entry `e` assigns key `k` and the assignment takes effect: `k` is not
      `__proto__`. */
  predicate Stores(e: Option<(string, Value)>, k: string) {
    e.Some? && e.value.0 == k && k != Proto
  }

  lemma {:induction false} AssignValid(es: seq<Option<(string, Value)>>)
    requires forall i :: 0 <= i < |es| && es[i].Some? ==> LineKey(es[i].value.0) && ValidValue(es[i].value.1)
    ensures Encodable(Assign(es))
    decreases |es|
  {
    if es != [] {
      AssignValid(es[..|es| - 1]);
    }
  }

  /** What `parseCellTextToParams` returns: `null` exactly for blank text,
      otherwise the object its loop builds. (The final
      `Object.keys(params).length === 0 ? {} : params` yields the same
      value in both branches.) */
  function ParsedParams(text: string): (r: Option<ParamsObject>)
    ensures r.None? <==> IsBlank(text)
  {
    var trimmed := Trim(text);
    if trimmed == [] then None else Some(Assign(LineEntries(SplitLines(trimmed))))
  }

  /** Every entry of a decoded object is one the encoder writes back
      faithfully: no key is empty or `mediatypes`, none holds a colon, and so on. */
  lemma ParsedIsEncodable(text: string)
    requires ParsedParams(text).Some?
    ensures Encodable(ParsedParams(text).value)
  {
    var lines := SplitLines(Trim(text));
    var es := LineEntries(lines);
    forall i | 0 <= i < |es| && es[i].Some?
      ensures LineKey(es[i].value.0) && ValidValue(es[i].value.1)
    {
      LineEntryValid(lines[i]);
    }
    AssignValid(es);
  }

  /** `parseCellTextToParams`: the text trimmed, split into lines, and
      each line read in turn, its pair (if any) assigned into the object. */
  method ParseCellTextToParams(text: string) returns (r: Option<ParamsObject>)
    ensures r == ParsedParams(text)
  {
    var trimmed := Trim(text);
    if trimmed == [] {
      return None;
    }
    var params: ParamsObject := map[];
    var lines := SplitLines(trimmed);
    ghost var es := LineEntries(lines);
    for i := 0 to |lines|
      invariant params == Assign(es[..i])
    {
      AssignStep(es, i);
      var e := ReadLine(lines[i]);
      if e.Some? {
        params := SetProperty(params, e.value.0, e.value.1);
      }
    }
    assert es[..|lines|] == es;
    return Some(params);
  }

  /** The part of the loop body of `parseCellTextToParams` that reads one
      line: `None` where a `continue` skips the line, otherwise the key and
      the coerced value assigned. */
  method ReadLine(raw: string) returns (e: Option<(string, Value)>)
    ensures e == LineEntry(raw)
  {
    var line := Trim(raw);
    if line == [] || ':' !in line {
      return None;
    }
    var (keyRaw, valueRaw) := SplitFirstTwo(line, ':');
    var key := Trim(keyRaw);
    var value := Trim(valueRaw);
    if key == [] || IsMediaTypesKey(key) {
      return None;
    }
    if IsIntShaped(value) {
      e := Some((key, Num(ParseInt(value))));
    } else {
      e := Some((key, Str(value)));
    }
  }

  /** The line `paramsToCellText` writes for one entry; a key that
      lower-cases to `mediatypes` is written as `mediatypes`. */
  function EntryLine(e: (string, Value)): string {
    if IsMediaTypesKey(e.0) then MediaTypes + ": " + Render(e.1)
    else e.0 + ": " + Render(e.1)
  }

  /** The lines written for the entries, one per entry, in entry order. */
  function EntryLines(es: seq<(string, Value)>): (lines: seq<string>)
  {
    seq(|es|, i requires 0 <= i < |es| => EntryLine(es[i]))
  }

  /** What `paramsToCellText` returns: the empty text exactly when there is
      nothing to write. */
  function CellText(p: Stored): (text: string)
    ensures text == [] <==> p.NotAnObject? || p.entries == []
  {
    match p
    case NotAnObject => ""
    case Object(es) => EntryLinesJoin(es); Join(EntryLines(es), "\n")
  }

  /** Every entry's line holds at least `: `, so the joined lines are empty
      exactly when there are no entries. */
  lemma EntryLinesJoin(es: seq<(string, Value)>)
    ensures Join(EntryLines(es), "\n") == [] <==> es == []
  {
    if es != [] {
      var line := EntryLine(es[0]);
      assert |line| >= 2;
      JoinFirst(EntryLines(es), "\n");
    }
  }

  /** `paramsToCellText`, pushing one line per entry and joining them. */
  method ParamsToCellText(p: Stored) returns (text: string)
    ensures text == CellText(p)
  {
    if p.NotAnObject? {
      return "";
    }
    var es := p.entries;
    var lines: seq<string> := [];
    for i := 0 to |es|
      invariant lines == EntryLines(es[..i])
    {
      var (key, value) := es[i];
      if IsMediaTypesKey(key) {
        lines := lines + [MediaTypes + ": " + Render(value)];
        continue;
      }
      lines := lines + [key + ": " + Render(value)];
    }
    assert es[..|es|] == es;
    text := Join(lines, "\n");
  }

  // ---------------------------------------------------------------------
  // Decoding

  /** The line model agrees with the unlimited split: the key comes from
      the first piece and the value from the second. */
  lemma LineEntryPieces(raw: string)
    requires var line := Trim(raw); line != [] && ':' in line
    ensures var pieces := SplitOn(Trim(raw), ':');
      var key := Trim(pieces[0]);
      LineEntry(raw) == if key == [] || IsMediaTypesKey(key) then None else Some((key, Coerce(Trim(pieces[1]))))
  {
    SplitFirstTwoPieces(Trim(raw), ':');
  }

  /** Anything after a second colon is discarded: a line
      `key:value:more` yields the trimmed `value` under `key`, whatever
      `more` holds (so `url: http://x` yields `http`). Here `tail` is the
      second colon and what follows it. */
  lemma SecondColonTruncates(key: string, value: string, tail: string)
    requires key != [] && Trim(key) == key && ':' !in key && !IsMediaTypesKey(key)
    requires ':' !in value
    requires |tail| > 0 && tail[0] == ':'
    ensures LineEntry(key + ":" + value + tail) == Some((key, Coerce(Trim(value))))
  {
    var head := key + ":" + value;
    var line := head + tail;
    assert !IsWhitespace(line[0]) by {
      assert TrimStart(key) == key;
      assert line[0] == key[0];
    }
    TrimStartNoop(line);
    TrimEndAppend(head, tail);
    var rest := TrimEnd(tail);
    assert rest != [] && rest[0] == ':';
    assert Trim(line) == key + [':'] + value + rest;
    SplitFirstTwoOf(key, value, rest, ':');
  }

  /** Integer-looking values become numbers, leading zeros and all:
      `007` is stored as 7. */
  lemma IntegerValueCoerced()
    ensures Coerce("007") == Num(7)
    ensures Coerce("-12") == Num(-12)
  {
    assert "007"[..2] == "00" && "00"[..1] == "0" && "0"[..0] == "";
    assert DecimalValue("0") == 0;
    assert DecimalValue("00") == 0;
    assert DecimalValue("007") == 7;
    assert "-12"[1..] == "12" && "12"[..1] == "1" && "1"[..0] == "";
    assert DecimalValue("1") == 1;
    assert DecimalValue("12") == 12;
  }

  /** Anything not wholly integer-shaped stays a string. */
  lemma NonIntegerValueKept()
    ensures Coerce("15a") == Str("15a")
    ensures Coerce("1.5") == Str("1.5")
    ensures Coerce("-") == Str("-")
  {
    assert !IsDigit("15a"[2]);
    assert !IsDigit("1.5"[1]);
    assert "-"[1..] == [];
  }

  /** A blank line, and a line without a colon, assign nothing. */
  lemma SkippedLine(raw: string)
    requires IsBlank(raw) || ':' !in raw
    ensures LineEntry(raw) == None
  {
    TrimChars(raw);
  }

  /** A `mediatypes` line, in any letter case, is never stored. */
  lemma MediaTypesLineDropped(raw: string)
    requires var line := Trim(raw);
      ':' in line && IsMediaTypesKey(Trim(SplitFirstTwo(line, ':').0))
    ensures LineEntry(raw) == None
  {
  }

  /** Lines that store nothing leave the object empty. */
  lemma {:induction false} AssignNothing(es: seq<Option<(string, Value)>>)
    requires forall i :: 0 <= i < |es| ==> es[i] == None
    ensures Assign(es) == map[]
    decreases |es|
  {
    if es != [] {
      AssignNothing(es[..|es| - 1]);
    }
  }

  /** Non-blank text with no usable line decodes to an empty object, not to
      `null`. */
  lemma NonBlankWithoutPairs(text: string)
    requires !IsBlank(text)
    requires forall l :: l in SplitLines(Trim(text)) ==> LineEntry(l) == None
    ensures ParsedParams(text) == Some(map[])
  {
    var lines := SplitLines(Trim(text));
    assert forall i :: 0 <= i < |lines| ==> lines[i] in lines;
    AssignNothing(LineEntries(lines));
  }

  /** A key is stored exactly when some assignment names it. */
  lemma {:induction false} AssignKeys(es: seq<Option<(string, Value)>>, k: string)
    ensures k in Assign(es) <==> exists j :: 0 <= j < |es| && Stores(es[j], k)
    decreases |es|
  {
    if es != [] {
      var init := es[..|es| - 1];
      AssignKeys(init, k);
      assert forall j :: 0 <= j < |init| ==> init[j] == es[j];
      if Stores(es[|es| - 1], k) {
        assert k in Assign(es);
      }
    }
  }

  /** Of several assignments to a key, the last one decides its value. */
  lemma {:induction false} AssignLastWins(es: seq<Option<(string, Value)>>, k: string, j: nat)
    requires j < |es| && Stores(es[j], k)
    requires forall j' :: j < j' < |es| ==> !Stores(es[j'], k)
    ensures k in Assign(es) && Assign(es)[k] == es[j].value.1
    decreases |es|
  {
    var init := es[..|es| - 1];
    if j < |es| - 1 {
      assert forall j' :: j < j' < |init| ==> init[j'] == es[j'];
      AssignLastWins(init, k, j);
    }
  }

  /** The decoded object holds a key exactly when some line of the text
      assigns it. */
  lemma KeysComeFromLines(text: string, k: string)
    requires !IsBlank(text)
    ensures var lines := SplitLines(Trim(text));
      k in ParsedParams(text).value <==> exists j :: 0 <= j < |lines| && Stores(LineEntry(lines[j]), k)
  {
    var lines := SplitLines(Trim(text));
    var es := LineEntries(lines);
    assert ParsedParams(text).value == Assign(es);
    AssignKeys(es, k);
    if k in Assign(es) {
      var j :| 0 <= j < |es| && Stores(es[j], k);
      assert Stores(LineEntry(lines[j]), k);
    }
    if exists j :: 0 <= j < |lines| && Stores(LineEntry(lines[j]), k) {
      var j :| 0 <= j < |lines| && Stores(LineEntry(lines[j]), k);
      assert Stores(es[j], k);
    }
  }

  /** When several lines assign the same key, the last of them decides the
      stored value. */
  lemma LastLineWins(text: string, k: string, j: nat)
    requires !IsBlank(text)
    requires var lines := SplitLines(Trim(text));
      && j < |lines| && Stores(LineEntry(lines[j]), k)
      && forall j' :: j < j' < |lines| ==> !Stores(LineEntry(lines[j']), k)
    ensures var lines := SplitLines(Trim(text));
      k in ParsedParams(text).value && ParsedParams(text).value[k] == LineEntry(lines[j]).value.1
  {
    var lines := SplitLines(Trim(text));
    var es := LineEntries(lines);
    assert ParsedParams(text).value == Assign(es);
    forall j' | j < j' < |es| ensures !Stores(es[j'], k) {
      assert es[j'] == LineEntry(lines[j']);
    }
    AssignLastWins(es, k, j);
  }

  /** Blank text, deletion included, decodes to `null`. */
  lemma BlankIsNull()
    ensures ParsedParams("") == None
    ensures ParsedParams("   \n  ") == None
  {
    assert IsBlank("   \n  ");
  }

  /** Non-blank text of one line without a colon, such as `junk`, decodes
      to `{}` rather than to nothing. */
  lemma JunkIsEmpty(text: string)
    requires !IsBlank(text) && '\n' !in text && ':' !in text
    ensures ParsedParams(text) == Some(map[])
  {
    TrimChars(text);
    OneLineWithoutPair(text);
  }

  /** Non-blank text of one line that is not a pair decodes to `{}`. */
  lemma OneLineWithoutPair(text: string)
    requires !IsBlank(text) && '\n' !in Trim(text) && LineEntry(Trim(text)) == None
    ensures ParsedParams(text) == Some(map[])
  {
    SplitLinesOne(Trim(text));
    AssignOneNone(Trim(text));
  }

  lemma AssignOneNone(x: string)
    requires LineEntry(x) == None
    ensures Assign(LineEntries([x])) == map[]
  {
    var es: seq<Option<(string, Value)>> := [None];
    assert LineEntries([x]) == es;
    assert es[..0] == [];
  }

  // ---------------------------------------------------------------------
  // Encoding

  /** A `mediatypes`-like key is written with the literal lower-case name. */
  lemma MediaTypesKeyWrittenLowercase(key: string, v: Value)
    requires IsMediaTypesKey(key)
    ensures EntryLine((key, v)) == "mediatypes: " + Render(v)
  {
  }

  /** An absent value, anything that is not an object, and the empty object
      all give the empty text, which decodes to `null`. */
  lemma EmptyEncodesToNull()
    ensures CellText(NotAnObject) == ""
    ensures CellText(Object([])) == ""
    ensures ParsedParams(CellText(Object([]))) == None
  {
  }

  lemma RenderChars(v: Value)
    requires ValidValue(v)
    ensures var r := Render(v);
      && ':' !in r && '\n' !in r
      && (r != [] ==> !IsWhitespace(r[0]) && !IsWhitespace(r[|r| - 1]))
      && Coerce(r) == v
  {
    match v
    case Str(s) =>
    case Num(n) =>
      var r := IntToString(n);
      IntToStringChars(n);
      assert ':' !in r && '\n' !in r;
      assert !IsWhitespace(r[0]) && !IsWhitespace(r[|r| - 1]);
      IntToStringParses(n);
  }

  ghost predicate NoLineFeeds(es: seq<(string, Value)>) {
    forall i :: 0 <= i < |es| ==> '\n' !in es[i].0 && '\n' !in Render(es[i].1)
  }

  lemma {:induction false} JoinEndsWithLast(parts: seq<string>, sep: string)
    requires |parts| > 0 && parts[|parts| - 1] != []
    ensures var t := Join(parts, sep);
      |t| > 0 && t[|t| - 1] == parts[|parts| - 1][|parts[|parts| - 1]| - 1]
  {
    if |parts| > 1 {
      assert parts == parts[..|parts| - 1] + [parts[|parts| - 1]];
      JoinSnoc(parts[..|parts| - 1], parts[|parts| - 1], sep);
    }
  }

  /** A non-empty object is written as exactly one line per entry, in
      entry order, joined by line feeds with none at the end. */
  lemma OneLinePerEntry(es: seq<(string, Value)>)
    requires |es| > 0 && NoLineFeeds(es)
    ensures SplitOn(CellText(Object(es)), '\n') == EntryLines(es)
    ensures var t := CellText(Object(es)); |t| > 0 && t[|t| - 1] != '\n'
  {
    var lines := EntryLines(es);
    forall i | 0 <= i < |lines| ensures '\n' !in lines[i] {
      assert '\n' !in MediaTypes;
    }
    assert "\n" == ['\n'];
    SplitJoin(lines, '\n');
    JoinEndsWithLast(lines, "\n");
  }

  // ---------------------------------------------------------------------
  // Round trip

  /** The mapping an entry list denotes: later entries overwrite earlier ones. */
  function ToMap(es: seq<(string, Value)>): (m: ParamsObject)
    decreases |es|
  {
    if es == [] then map[] else ToMap(es[..|es| - 1])[es[|es| - 1].0 := es[|es| - 1].1]
  }

  /** `es` lists the entries of `m` (as `Object.entries(m)` does). */
  ghost predicate Enumerates(es: seq<(string, Value)>, m: ParamsObject) {
    && (forall i :: 0 <= i < |es| ==> es[i].0 in m && m[es[i].0] == es[i].1)
    && (forall k :: k in m ==> exists i :: 0 <= i < |es| && es[i].0 == k)
  }

  lemma {:induction false} ToMapEntries(es: seq<(string, Value)>)
    ensures forall k :: k in ToMap(es) <==> exists i :: 0 <= i < |es| && es[i].0 == k
    ensures forall k :: k in ToMap(es) ==> exists i :: 0 <= i < |es| && es[i] == (k, ToMap(es)[k])
    decreases |es|
  {
    if es != [] {
      var init := es[..|es| - 1];
      ToMapEntries(init);
      assert forall i :: 0 <= i < |init| ==> init[i] == es[i];
    }
  }

  lemma ToMapOfEnumeration(es: seq<(string, Value)>, m: ParamsObject)
    requires Enumerates(es, m)
    ensures ToMap(es) == m
  {
    ToMapEntries(es);
    forall k | k in m ensures k in ToMap(es) && ToMap(es)[k] == m[k] {
      var i :| 0 <= i < |es| && es[i] == (k, ToMap(es)[k]);
    }
  }

  /** The trimmed form of a valid entry's line: the trailing space is lost
      when the value is empty. */
  function TrimmedLine(e: (string, Value)): string {
    if Render(e.1) == [] then e.0 + ":" else e.0 + ": " + Render(e.1)
  }

  /** A valid entry's line starts with its key, holds no line feed and
      does not end in a carriage return. */
  lemma EntryLineShape(e: (string, Value))
    requires LineKey(e.0) && ValidValue(e.1)
    ensures PlainLine(EntryLine(e))
  {
    KeyStart(e.0);
    RenderEnd(e.1);
    EntryLinePair(e);
    PairLinePlain(e.0, Render(e.1));
  }

  /** Trimming a valid entry's line gives `TrimmedLine`. */
  lemma EntryLineTrims(e: (string, Value))
    requires LineKey(e.0) && ValidValue(e.1)
    ensures TrimEnd(EntryLine(e)) == TrimmedLine(e)
    ensures Trim(EntryLine(e)) == TrimmedLine(e)
  {
    KeyStart(e.0);
    RenderEnd(e.1);
    EntryLinePair(e);
    if Render(e.1) == [] {
      ColonSpaceTrims(e.0);
    } else {
      ColonValueTrims(e.0, Render(e.1));
    }
  }

  lemma RenderEnd(v: Value)
    requires ValidValue(v)
    ensures Render(v) == [] || !IsWhitespace(Render(v)[|Render(v)| - 1])
    ensures '\n' !in Render(v)
  {
    RenderChars(v);
  }

  lemma EntryLinePair(e: (string, Value))
    requires LineKey(e.0)
    ensures EntryLine(e) == e.0 + ": " + Render(e.1)
  {
  }

  lemma KeyStart(k: string)
    requires LineKey(k)
    ensures k != [] && !IsWhitespace(k[0]) && '\n' !in k
  {
    assert Trim(k) == k;
  }

  /** `k:` is its own trim and splits into `k` and nothing. */
  lemma EmptyValueLineSplits(k: string)
    requires k != [] && !IsWhitespace(k[0]) && ':' !in k
    ensures Trim(k + ":") == k + ":" && ':' in k + ":"
    ensures SplitFirstTwo(k + ":", ':') == (k, "")
  {
    var t := k + ":";
    assert t[0] == k[0] && t[|t| - 1] == ':';
    TrimOfTrimmed(t);
    SplitFirstTwoOf(k, "", "", ':');
    assert k + [':'] + "" + "" == t;
  }

  /** `k: r`, for a non-empty `r` without surrounding whitespace, is its
      own trim and splits into `k` and text that trims to `r`. */
  lemma ValueLineSplits(k: string, r: string)
    requires k != [] && !IsWhitespace(k[0]) && ':' !in k && ':' !in r
    requires r != [] && !IsWhitespace(r[0]) && !IsWhitespace(r[|r| - 1])
    ensures Trim(k + ": " + r) == k + ": " + r && ':' in k + ": " + r
    ensures SplitFirstTwo(k + ": " + r, ':') == (k, " " + r)
    ensures Trim(" " + r) == r
  {
    var t := k + ": " + r;
    assert t[0] == k[0] && t[|t| - 1] == r[|r| - 1];
    TrimOfTrimmed(t);
    SplitFirstTwoOf(k, " " + r, "", ':');
    assert k + [':'] + (" " + r) + "" == t;
    SpaceThenTrimmed(r);
  }

  lemma SpaceThenTrimmed(r: string)
    requires r != [] && !IsWhitespace(r[0]) && !IsWhitespace(r[|r| - 1])
    ensures Trim(" " + r) == r
  {
    assert TrimStart(" " + r) == TrimStart(r) by { assert (" " + r)[1..] == r; }
    assert TrimStart(r) == r;
    TrimOfTrimmed(r);
  }

  /** Lines with the same trim decode alike. */
  lemma LineEntrySameTrim(a: string, b: string)
    requires Trim(a) == Trim(b)
    ensures LineEntry(a) == LineEntry(b)
  {
  }

  /** A valid entry's line, trimmed or not, decodes to the entry. */
  lemma EntryLineDecodes(e: (string, Value))
    requires LineKey(e.0) && ValidValue(e.1)
    ensures LineEntry(TrimmedLine(e)) == Some(e)
    ensures LineEntry(EntryLine(e)) == Some(e)
  {
    assert LineEntry(TrimmedLine(e)) == Some(e) by {
      RenderChars(e.1);
      assert TrimStart(e.0) == e.0;
      if Render(e.1) == [] {
        EmptyValueLineSplits(e.0);
      } else {
        ValueLineSplits(e.0, Render(e.1));
      }
    }
    EntryLineTrims(e);
    LineEntrySameTrim(EntryLine(e), TrimmedLine(e));
  }

  lemma {:induction false} AssignEntries(fs: seq<Option<(string, Value)>>, es: seq<(string, Value)>)
    requires |fs| == |es|
    requires forall i :: 0 <= i < |es| ==> fs[i] == Some(es[i]) && es[i].0 != Proto
    ensures Assign(fs) == ToMap(es)
    decreases |es|
  {
    if es != [] {
      AssignEntries(fs[..|fs| - 1], es[..|es| - 1]);
    }
  }

  /** Decoding lines joined with line feeds: only the end of the last line
      is trimmed away before the lines are read one by one. */
  lemma ParsedJoin(lines: seq<string>)
    requires |lines| > 0 && forall i :: 0 <= i < |lines| ==> PlainLine(lines[i])
    ensures ParsedParams(Join(lines, "\n")) == Some(Assign(LineEntries(LastTrimmed(lines))))
  {
    JoinNotBlank(lines, "\n");
    SplitTrimmedJoin(lines);
  }

  /** Encoding entries that meet the round-trip conditions and decoding the
      text gives back the mapping they denote. */
  lemma RoundTripEntries(es: seq<(string, Value)>)
    requires |es| > 0
    requires forall i :: 0 <= i < |es| ==> ValidKey(es[i].0) && ValidValue(es[i].1)
    ensures ParsedParams(CellText(Object(es))) == Some(ToMap(es))
  {
    var lines := EntryLines(es);
    assert CellText(Object(es)) == Join(lines, "\n");
    EntryLinesShape(es);
    ParsedJoin(lines);
    EntryLinesDecode(es);
  }

  lemma EntryLinesShape(es: seq<(string, Value)>)
    requires forall i :: 0 <= i < |es| ==> LineKey(es[i].0) && ValidValue(es[i].1)
    ensures forall i :: 0 <= i < |EntryLines(es)| ==> PlainLine(EntryLines(es)[i])
  {
    forall i | 0 <= i < |es| ensures PlainLine(EntryLines(es)[i]) {
      EntryLineShape(es[i]);
    }
  }

  /** The lines of valid entries, the last with its end trimmed, decode
      one by one to the entries. */
  lemma EntryLinesDecode(es: seq<(string, Value)>)
    requires |es| > 0
    requires forall i :: 0 <= i < |es| ==> ValidKey(es[i].0) && ValidValue(es[i].1)
    ensures Assign(LineEntries(LastTrimmed(EntryLines(es)))) == ToMap(es)
  {
    EntryLinesEach(es);
    AssignEntries(LineEntries(LastTrimmed(EntryLines(es))), es);
  }

  lemma EntryLinesEach(es: seq<(string, Value)>)
    requires |es| > 0
    requires forall i :: 0 <= i < |es| ==> LineKey(es[i].0) && ValidValue(es[i].1)
    ensures var fs := LineEntries(LastTrimmed(EntryLines(es)));
      |fs| == |es| && forall i :: 0 <= i < |es| ==> fs[i] == Some(es[i])
  {
    InitLinesDecode(es);
    LastLineDecodes(es);
  }

  lemma InitLinesDecode(es: seq<(string, Value)>)
    requires |es| > 0
    requires forall i :: 0 <= i < |es| ==> LineKey(es[i].0) && ValidValue(es[i].1)
    ensures var fs := LineEntries(LastTrimmed(EntryLines(es)));
      forall i :: 0 <= i < |es| - 1 ==> fs[i] == Some(es[i])
  {
    var lines' := LastTrimmed(EntryLines(es));
    forall i | 0 <= i < |es| - 1 ensures LineEntry(lines'[i]) == Some(es[i]) {
      assert lines'[i] == EntryLine(es[i]);
      EntryLineDecodes(es[i]);
    }
  }

  lemma LastLineDecodes(es: seq<(string, Value)>)
    requires |es| > 0
    requires LineKey(es[|es| - 1].0) && ValidValue(es[|es| - 1].1)
    ensures var fs := LineEntries(LastTrimmed(EntryLines(es)));
      fs[|es| - 1] == Some(es[|es| - 1])
  {
    var e := es[|es| - 1];
    EntryLineTrims(e);
    EntryLineDecodes(e);
  }

  /** `parseCellTextToParams(paramsToCellText(m))` gives back `m` for every
      non-empty mapping whose keys and values meet the round-trip conditions,
      whatever order its entries are enumerated in. */
  lemma RoundTrip(m: ParamsObject, es: seq<(string, Value)>)
    requires m != map[] && Encodable(m) && Enumerates(es, m)
    ensures ParsedParams(CellText(Object(es))) == Some(m)
  {
    var k :| k in m;
    assert es != [];
    RoundTripEntries(es);
    ToMapOfEnumeration(es, m);
  }

  /** Editing is stable: re-encoding a decoded non-empty mapping and decoding
      again gives the same mapping. */
  lemma ReparseIsStable(text: string, es: seq<(string, Value)>)
    requires ParsedParams(text).Some? && ParsedParams(text).value != map[]
    requires Enumerates(es, ParsedParams(text).value)
    ensures ParsedParams(CellText(Object(es))) == ParsedParams(text)
  {
    ParsedIsEncodable(text);
    RoundTrip(ParsedParams(text).value, es);
  }

  /** No decoded object holds `__proto__`, whatever the text says. */
  lemma ProtoNeverStored(text: string)
    requires ParsedParams(text).Some?
    ensures Proto !in ParsedParams(text).value
  {
  }

  /** `__proto__` has the shape of a line key. */
  lemma ProtoIsLineKey()
    ensures LineKey(Proto)
  {
    ProtoTrimmed();
    ProtoNotMediaTypes();
    assert ':' !in Proto && '\n' !in Proto;
  }

  lemma ProtoTrimmed()
    ensures Trim(Proto) == Proto
  {
    assert Proto[0] == '_' && Proto[8] == '_';
    TrimOfTrimmed(Proto);
  }

  lemma ProtoNotMediaTypes()
    ensures !IsMediaTypesKey(Proto)
  {
    assert |Lower(Proto)| == 9;
  }

  /** The round trip fails for `__proto__`: the mapping holding only that
      key is written as one `__proto__: value` line, which decodes to `{}`. */
  lemma ProtoNotRoundTripped(v: Value)
    requires ValidValue(v)
    ensures ParsedParams(CellText(Object([(Proto, v)]))) == Some(map[])
  {
    ProtoIsLineKey();
    OneEntryDecodes((Proto, v));
    AssignProto(v);
  }

  /** A single entry with a line key is written as a line that reads back
      as that entry alone. */
  lemma OneEntryDecodes(e: (string, Value))
    requires LineKey(e.0) && ValidValue(e.1)
    ensures ParsedParams(CellText(Object([e]))) == Some(Assign([Some(e)]))
  {
    OneEntryText(e);
    EntryLineShape(e);
    OneLineDecodes(EntryLine(e));
    TrimEndEntry(e);
  }

  lemma TrimEndEntry(e: (string, Value))
    requires LineKey(e.0) && ValidValue(e.1)
    ensures LineEntries([TrimEnd(EntryLine(e))]) == [Some(e)]
  {
    EntryLineTrims(e);
    EntryLineDecodes(e);
  }

  lemma OneEntryText(e: (string, Value))
    ensures CellText(Object([e])) == Join([EntryLine(e)], "\n")
  {
    assert EntryLines([e]) == [EntryLine(e)];
  }

  lemma OneLineDecodes(line: string)
    requires PlainLine(line)
    ensures ParsedParams(Join([line], "\n")) == Some(Assign(LineEntries([TrimEnd(line)])))
  {
    ParsedJoin([line]);
    assert LastTrimmed([line]) == [TrimEnd(line)];
  }

  lemma AssignProto(v: Value)
    ensures Assign([Some((Proto, v))]) == map[]
  {
    assert [Some((Proto, v))][..0] == [];
  }
}
