/** Canonicalization of JSON values, the reader, and what equal texts mean. */
module Jcs {
  import opened Wrappers
  import opened Sequences
  import opened Ordering
  import opened Decimals
  import opened JcsNumbers
  import opened JcsText

  /** Python values; a dictionary lists its members in insertion order. */
  datatype Json =
    | Null
    | Bool(b: bool)
    | Num(n: Number)
    | Str(s: Text)
    | Arr(items: seq<Json>)
    | Obj(members: seq<Entry<Json>>)
    | Foreign

  /** Everything in it can be canonicalized. */
  predicate Serializable(v: Json)
    decreases v
  {
    match v
    case Num(n) => Printable(n)
    case Arr(items) => forall x :: x in items ==> Serializable(x)
    case Obj(members) => forall m :: m in members ==> Serializable(m.value)
    case Foreign => false
    case _ => true
  }

  /** Dictionaries have distinct keys. */
  ghost predicate WellFormed(v: Json)
    decreases v
  {
    match v
    case Arr(items) => forall x :: x in items ==> WellFormed(x)
    case Obj(members) => DistinctKeys(members) && forall m :: m in members ==> WellFormed(m.value)
    case _ => true
  }

  ghost predicate DistinctKeys<T>(members: seq<Entry<T>>) {
    forall i, j :: 0 <= i < j < |members| ==> members[i].key != members[j].key
  }

  const NULL_TEXT: Text := [110, 117, 108, 108]
  const TRUE_TEXT: Text := [116, 114, 117, 101]
  const FALSE_TEXT: Text := [102, 97, 108, 115, 101]
  const COMMA: CodePoint := 44
  const COLON: CodePoint := 58
  const OPEN_ARRAY: CodePoint := 91
  const CLOSE_ARRAY: CodePoint := 93
  const OPEN_OBJECT: CodePoint := 123
  const CLOSE_OBJECT: CodePoint := 125

  /** Comma-separated texts. */
  function Joined(texts: seq<Text>): Text {
    if texts == [] then []
    else if |texts| == 1 then texts[0]
    else texts[0] + [COMMA] + Joined(texts[1..])
  }

  /** The text of a value as it stands; values that are not serializable have none. */
  function Written(v: Json): Text
    decreases v, 1
  {
    match v
    case Null => NULL_TEXT
    case Bool(b) => if b then TRUE_TEXT else FALSE_TEXT
    case Str(s) => SerializeString(s)
    case Num(n) => if Printable(n) then NumberText(n) else []
    case Arr(items) => [OPEN_ARRAY] + Joined(WrittenItems(items)) + [CLOSE_ARRAY]
    case Obj(members) => [OPEN_OBJECT] + Joined(WrittenMembers(members)) + [CLOSE_OBJECT]
    case Foreign => []
  }

  function WrittenItems(items: seq<Json>): (r: seq<Text>)
    ensures |r| == |items|
    decreases items, 0
  {
    if items == [] then [] else [Written(items[0])] + WrittenItems(items[1..])
  }

  function WrittenMember(m: Entry<Json>): Text
    decreases m, 2
  {
    SerializeString(m.key) + [COLON] + Written(m.value)
  }

  function WrittenMembers(members: seq<Entry<Json>>): (r: seq<Text>)
    ensures |r| == |members|
    decreases members, 0
  {
    if members == [] then [] else [WrittenMember(members[0])] + WrittenMembers(members[1..])
  }

  type MemberOrder = (Entry<Json>, Entry<Json>) -> bool

  /** The members of every dictionary in an order of their names. */
  function InOrder(le: MemberOrder, v: Json): Json
    decreases v, 1
  {
    match v
    case Arr(items) => Arr(InOrderItems(le, items))
    case Obj(members) => Obj(Sort(le, InOrderValues(le, members)))
    case _ => v
  }

  function InOrderItems(le: MemberOrder, items: seq<Json>): (r: seq<Json>)
    ensures |r| == |items|
    decreases items, 0
  {
    if items == [] then [] else [InOrder(le, items[0])] + InOrderItems(le, items[1..])
  }

  function InOrderValues(le: MemberOrder, members: seq<Entry<Json>>): (r: seq<Entry<Json>>)
    ensures |r| == |members| && forall i :: 0 <= i < |r| ==> r[i].key == members[i].key
    decreases members, 0
  {
    if members == [] then []
    else [Entry(members[0].key, InOrder(le, members[0].value))] + InOrderValues(le, members[1..])
  }

  datatype JcsError = NotSerializable

  /** `canonicalize`: the members in the UTF-16 order of their names, then the text. */
  function Serialize(v: Json): Text { Written(InOrder(KeyLe<Json>, v)) }

  function Canonicalize(v: Json): Result<Text, JcsError> {
    if Serializable(v) then Ok(Serialize(v)) else Err(NotSerializable)
  }

  // ---- the reader ----

  function NumberPrefix(t: Text): (n: nat)
    ensures n <= |t| && forall i :: 0 <= i < n ==> IsNumberChar(t[i])
    ensures n < |t| ==> !IsNumberChar(t[n])
  {
    if t == [] || !IsNumberChar(t[0]) then 0 else 1 + NumberPrefix(t[1..])
  }

  /** The last of several members with one name wins. */
  function AddMember(m: Entry<Json>, rest: seq<Entry<Json>>): seq<Entry<Json>> {
    if exists i :: 0 <= i < |rest| && rest[i].key == m.key then rest else [m] + rest
  }

  /** One value at the start of the text, numbers read as decimals, with what follows it. */
  function Read(t: Text): (r: Option<(Json, Text)>)
    ensures r.Some? ==> |r.value.1| < |t|
    decreases |t|, 1
  {
    if t == [] then None
    else if IsDigit(t[0]) || t[0] == MINUS then ReadNumber(t)
    else if t[0] == QUOTE then
      var s := ReadString(t[1..]);
      if s.None? then None else Some((Str(s.value.0), s.value.1))
    else if t[0] == OPEN_ARRAY then
      if |t| > 1 && t[1] == CLOSE_ARRAY then Some((Arr([]), t[2..]))
      else
        var items := ReadItems(t[1..]);
        if items.None? then None else Some((Arr(items.value.0), items.value.1))
    else if t[0] == OPEN_OBJECT then
      if |t| > 1 && t[1] == CLOSE_OBJECT then Some((Obj([]), t[2..]))
      else
        var members := ReadMembers(t[1..]);
        if members.None? then None else Some((Obj(members.value.0), members.value.1))
    else if NULL_TEXT <= t then Some((Null, t[4..]))
    else if TRUE_TEXT <= t then Some((Bool(true), t[4..]))
    else if FALSE_TEXT <= t then Some((Bool(false), t[5..]))
    else None
  }

  function ReadNumber(t: Text): (r: Option<(Json, Text)>)
    requires t != []
    ensures r.Some? ==> |r.value.1| < |t|
  {
    var n := NumberPrefix(t);
    var d := ReadDecimal(t[..n]);
    if n == 0 || d.None? then None else Some((Num(Double(d.value)), t[n..]))
  }

  function ReadItems(t: Text): (r: Option<(seq<Json>, Text)>)
    ensures r.Some? ==> |r.value.1| < |t|
    decreases |t|, 2
  {
    var v := Read(t);
    if v.None? || v.value.1 == [] then None
    else if v.value.1[0] == CLOSE_ARRAY then Some(([v.value.0], v.value.1[1..]))
    else if v.value.1[0] != COMMA then None
    else
      var rest := ReadItems(v.value.1[1..]);
      if rest.None? then None else Some(([v.value.0] + rest.value.0, rest.value.1))
  }

  function ReadMember(t: Text): (r: Option<(Entry<Json>, Text)>)
    ensures r.Some? ==> |r.value.1| < |t|
    decreases |t|, 2
  {
    if t == [] || t[0] != QUOTE then None
    else
      var key := ReadString(t[1..]);
      if key.None? || key.value.1 == [] || key.value.1[0] != COLON then None
      else
        var v := Read(key.value.1[1..]);
        if v.None? then None else Some((Entry(key.value.0, v.value.0), v.value.1))
  }

  function ReadMembers(t: Text): (r: Option<(seq<Entry<Json>>, Text)>)
    ensures r.Some? ==> |r.value.1| < |t|
    decreases |t|, 3
  {
    var m := ReadMember(t);
    if m.None? || m.value.1 == [] then None
    else if m.value.1[0] == CLOSE_OBJECT then Some(([m.value.0], m.value.1[1..]))
    else if m.value.1[0] != COMMA then None
    else
      var rest := ReadMembers(m.value.1[1..]);
      if rest.None? then None else Some((AddMember(m.value.0, rest.value.0), rest.value.1))
  }

  /** The value of a compact text, every number as the exact decimal it spells. */
  function Loads(t: Text): Option<Json> {
    var v := Read(t);
    if v.Some? && v.value.1 == [] then Some(v.value.0) else None
  }

  /** The value with every number as the decimal it prints. */
  function Floats(v: Json): Json
    decreases v, 1
  {
    match v
    case Num(n) => if Printable(n) then Num(Double(NumberValue(n))) else v
    case Arr(items) => Arr(FloatItems(items))
    case Obj(members) => Obj(FloatMembers(members))
    case _ => v
  }

  function FloatItems(items: seq<Json>): (r: seq<Json>)
    ensures |r| == |items|
    decreases items, 0
  {
    if items == [] then [] else [Floats(items[0])] + FloatItems(items[1..])
  }

  function FloatMember(m: Entry<Json>): Entry<Json>
    decreases m, 2
  {
    Entry(m.key, Floats(m.value))
  }

  function FloatMembers(members: seq<Entry<Json>>): (r: seq<Entry<Json>>)
    ensures |r| == |members| && forall i :: 0 <= i < |r| ==> r[i].key == members[i].key
    decreases members, 0
  {
    if members == [] then [] else [FloatMember(members[0])] + FloatMembers(members[1..])
  }

  // ---- reading a written text ----

  predicate Delimited(rest: Text) { rest == [] || !IsNumberChar(rest[0]) }

  lemma NumberTextReadNumber(text: Text, d: Shortest, rest: Text)
    requires text != [] && ReadDecimal(text) == Some(d) && Delimited(rest)
    requires forall i :: 0 <= i < |text| ==> IsNumberChar(text[i])
    ensures ReadNumber(text + rest) == Some((Num(Double(d)), rest))
  {
    var t := text + rest;
    PrefixOfNumber(text, rest);
    assert t[..|text|] == text && t[|text|..] == rest;
  }

  lemma NumberReads(n: Number, rest: Text)
    requires Printable(n) && Delimited(rest)
    ensures Read(NumberText(n) + rest) == Some((Num(Double(NumberValue(n))), rest))
  {
    var text := NumberText(n);
    NumberTextReads(n);
    EcmaTextChars(NumberValue(n));
    NumberTextReadNumber(text, NumberValue(n), rest);
    assert (text + rest)[0] == text[0];
  }

  lemma {:induction false} PrefixOfNumber(text: Text, rest: Text)
    requires Delimited(rest) && forall i :: 0 <= i < |text| ==> IsNumberChar(text[i])
    ensures NumberPrefix(text + rest) == |text|
  {
    if text == [] {
      assert text + rest == rest;
    } else {
      assert (text + rest)[1..] == text[1..] + rest;
      PrefixOfNumber(text[1..], rest);
    }
  }

  lemma WordReads(word: Text, v: Json, rest: Text)
    requires (word == NULL_TEXT && v == Null) || (word == TRUE_TEXT && v == Bool(true)) ||
             (word == FALSE_TEXT && v == Bool(false))
    ensures Read(word + rest) == Some((v, rest))
  {
    var t := word + rest;
    assert t[0] == word[0] && word <= t && t[|word|..] == rest;
  }

  lemma FirstChar(v: Json)
    requires Serializable(v)
    ensures Written(v) != [] && Written(v)[0] != CLOSE_ARRAY
  {
    if v.Num? {
      NumberTextReads(v.n);
      EcmaTextChars(NumberValue(v.n));
    }
  }

  lemma JoinedMore(first: Text, more: seq<Text>, tail: Text)
    ensures Joined([first] + more) + tail ==
            first + (if more == [] then tail else [COMMA] + (Joined(more) + tail))
  {
    assert ([first] + more)[1..] == more;
  }

  lemma Bracketed(open: CodePoint, inner: Text, close: CodePoint, rest: Text)
    ensures [open] + inner + [close] + rest == [open] + (inner + ([close] + rest))
  {
  }

  lemma StringValueReads(s: Text, rest: Text)
    ensures Read(SerializeString(s) + rest) == Some((Str(s), rest))
  {
    var t := SerializeString(s) + rest;
    StringReads(s, rest);
    OpenQuote(Escape(s), rest);
    assert ReadString(t[1..]) == Some((s, rest));
  }

  lemma OpenQuote(escaped: Text, rest: Text)
    ensures var t := ([QUOTE] + escaped + [QUOTE]) + rest;
      t[0] == QUOTE && t[1..] == escaped + [QUOTE] + rest
  {
  }

  /** The written text reads back as the value, numbers as floats, whatever delimiter follows. */
  lemma {:induction false} WrittenReads(v: Json, rest: Text)
    requires Serializable(v) && WellFormed(v) && Delimited(rest)
    ensures Read(Written(v) + rest) == Some((Floats(v), rest))
    decreases v, 1
  {
    match v
    case Null => WordReads(NULL_TEXT, v, rest);
    case Bool(b) => WordReads(if b then TRUE_TEXT else FALSE_TEXT, v, rest);
    case Num(n) => NumberReads(n, rest);
    case Str(s) => StringValueReads(s, rest);
    case Arr(items) => ArrayReads(items, rest);
    case Obj(members) => ObjectReads(members, rest);
  }

  lemma EmptyRead(rest: Text)
    ensures Read([OPEN_ARRAY] + ([] + ([CLOSE_ARRAY] + rest))) == Some((Arr([]), rest))
    ensures Read([OPEN_OBJECT] + ([] + ([CLOSE_OBJECT] + rest))) == Some((Obj([]), rest))
  {
    var t := [OPEN_ARRAY] + ([] + ([CLOSE_ARRAY] + rest));
    assert t[1] == CLOSE_ARRAY && t[2..] == rest;
    var u := [OPEN_OBJECT] + ([] + ([CLOSE_OBJECT] + rest));
    assert u[1] == CLOSE_OBJECT && u[2..] == rest;
  }

  lemma ArrayText(body: Text, items: seq<Json>, rest: Text)
    requires body != [] && body[0] != CLOSE_ARRAY && ReadItems(body) == Some((items, rest))
    ensures Read([OPEN_ARRAY] + body) == Some((Arr(items), rest))
  {
    var t := [OPEN_ARRAY] + body;
    assert t[1..] == body && t[1] == body[0];
  }

  lemma ObjectText(body: Text, members: seq<Entry<Json>>, rest: Text)
    requires body != [] && body[0] == QUOTE && ReadMembers(body) == Some((members, rest))
    ensures Read([OPEN_OBJECT] + body) == Some((Obj(members), rest))
  {
    var t := [OPEN_OBJECT] + body;
    assert t[1..] == body && t[1] == QUOTE;
  }

  lemma JoinedStart(texts: seq<Text>, end: Text)
    requires texts != [] && texts[0] != []
    ensures Joined(texts) + end != [] && (Joined(texts) + end)[0] == texts[0][0]
  {
    assert texts == [texts[0]] + texts[1..];
    JoinedMore(texts[0], texts[1..], end);
  }

  lemma {:induction false} ArrayReads(items: seq<Json>, rest: Text)
    requires Serializable(Arr(items)) && WellFormed(Arr(items))
    ensures Read(Written(Arr(items)) + rest) == Some((Floats(Arr(items)), rest))
    decreases items, 2
  {
    var texts := WrittenItems(items);
    Bracketed(OPEN_ARRAY, Joined(texts), CLOSE_ARRAY, rest);
    if items == [] {
      EmptyRead(rest);
    } else {
      FirstChar(items[0]);
      JoinedStart(texts, [CLOSE_ARRAY] + rest);
      ItemsRead(items, rest);
      ArrayText(Joined(texts) + ([CLOSE_ARRAY] + rest), FloatItems(items), rest);
    }
  }

  lemma OneMoreItemRead(text: Text, v: Json, tail: Text, more: seq<Json>, rest: Text)
    requires Read(text + ([COMMA] + tail)) == Some((v, [COMMA] + tail)) && ReadItems(tail) == Some((more, rest))
    ensures ReadItems(text + ([COMMA] + tail)) == Some(([v] + more, rest))
  {
    assert ([COMMA] + tail)[1..] == tail;
  }

  lemma {:induction false} ItemsRead(items: seq<Json>, rest: Text)
    requires items != [] && Serializable(Arr(items)) && WellFormed(Arr(items))
    ensures ReadItems(Joined(WrittenItems(items)) + ([CLOSE_ARRAY] + rest)) == Some((FloatItems(items), rest))
    decreases items, 1
  {
    var end := [CLOSE_ARRAY] + rest;
    var more := items[1..];
    var texts := WrittenItems(more);
    assert WrittenItems(items) == [Written(items[0])] + texts;
    assert FloatItems(items) == [Floats(items[0])] + FloatItems(more);
    JoinedMore(Written(items[0]), texts, end);
    if more == [] {
      WrittenReads(items[0], end);
      assert texts == [] && FloatItems(items) == [Floats(items[0])];
    } else {
      var tail := Joined(texts) + end;
      WrittenReads(items[0], [COMMA] + tail);
      ItemsRead(more, rest);
      OneMoreItemRead(Written(items[0]), Floats(items[0]), tail, FloatItems(more), rest);
    }
  }

  lemma {:induction false} ObjectReads(members: seq<Entry<Json>>, rest: Text)
    requires Serializable(Obj(members)) && WellFormed(Obj(members))
    ensures Read(Written(Obj(members)) + rest) == Some((Floats(Obj(members)), rest))
    decreases members, 3
  {
    var texts := WrittenMembers(members);
    Bracketed(OPEN_OBJECT, Joined(texts), CLOSE_OBJECT, rest);
    if members == [] {
      EmptyRead(rest);
    } else {
      assert texts[0] == WrittenMember(members[0]) && WrittenMember(members[0])[0] == QUOTE;
      JoinedStart(texts, [CLOSE_OBJECT] + rest);
      MembersRead(members, rest);
      ObjectText(Joined(texts) + ([CLOSE_OBJECT] + rest), FloatMembers(members), rest);
    }
  }

  lemma MemberOfParts(t: Text, key: Text, after: Text, v: Json, rest: Text)
    requires t != [] && t[0] == QUOTE && ReadString(t[1..]) == Some((key, after))
    requires after != [] && after[0] == COLON && Read(after[1..]) == Some((v, rest))
    ensures ReadMember(t) == Some((Entry(key, v), rest))
  {
  }

  lemma QuotedTail(escaped: Text, value: Text, rest: Text)
    ensures var t := [QUOTE] + escaped + [QUOTE] + [COLON] + value + rest;
      t[0] == QUOTE && t[1..] == escaped + [QUOTE] + ([COLON] + (value + rest))
    ensures ([COLON] + (value + rest))[1..] == value + rest
  {
  }

  lemma KeyReads(key: Text, value: Text, v: Json, rest: Text)
    requires Read(value + rest) == Some((v, rest))
    ensures ReadMember(SerializeString(key) + [COLON] + value + rest) == Some((Entry(key, v), rest))
  {
    var after := [COLON] + (value + rest);
    QuotedTail(Escape(key), value, rest);
    StringReads(key, after);
    MemberOfParts(SerializeString(key) + [COLON] + value + rest, key, after, v, rest);
  }

  lemma LastMemberRead(text: Text, m: Entry<Json>, rest: Text)
    requires ReadMember(text + ([CLOSE_OBJECT] + rest)) == Some((m, [CLOSE_OBJECT] + rest))
    ensures ReadMembers(text + ([CLOSE_OBJECT] + rest)) == Some(([m], rest))
  {
    assert ([CLOSE_OBJECT] + rest)[1..] == rest;
  }

  lemma OneMoreMemberRead(text: Text, m: Entry<Json>, tail: Text, more: seq<Entry<Json>>, rest: Text)
    requires ReadMember(text + ([COMMA] + tail)) == Some((m, [COMMA] + tail))
    requires ReadMembers(tail) == Some((more, rest))
    requires forall i :: 0 <= i < |more| ==> more[i].key != m.key
    ensures ReadMembers(text + ([COMMA] + tail)) == Some(([m] + more, rest))
  {
    assert ([COMMA] + tail)[1..] == tail;
  }

  lemma {:induction false} MemberReads(m: Entry<Json>, rest: Text)
    requires Serializable(m.value) && WellFormed(m.value) && Delimited(rest)
    ensures ReadMember(WrittenMember(m) + rest) == Some((FloatMember(m), rest))
    decreases m, 3
  {
    WrittenReads(m.value, rest);
    KeyReads(m.key, Written(m.value), Floats(m.value), rest);
  }

  lemma MembersShape(members: seq<Entry<Json>>, end: Text)
    requires members != []
    ensures Joined(WrittenMembers(members)) + end == WrittenMember(members[0]) +
      (if members[1..] == [] then end else [COMMA] + (Joined(WrittenMembers(members[1..])) + end))
    ensures FloatMembers(members) == [FloatMember(members[0])] + FloatMembers(members[1..])
  {
    JoinedMore(WrittenMember(members[0]), WrittenMembers(members[1..]), end);
  }

  lemma {:induction false} MembersRead(members: seq<Entry<Json>>, rest: Text)
    requires members != [] && DistinctKeys(members)
    requires forall m :: m in members ==> Serializable(m.value) && WellFormed(m.value)
    ensures ReadMembers(Joined(WrittenMembers(members)) + ([CLOSE_OBJECT] + rest))
            == Some((FloatMembers(members), rest))
    decreases members, 2
  {
    var end := [CLOSE_OBJECT] + rest;
    var m, more := members[0], members[1..];
    MembersShape(members, end);
    assert m in members;
    if more == [] {
      MemberReads(m, end);
      LastMemberRead(WrittenMember(m), FloatMember(m), rest);
      assert FloatMembers(members) == [FloatMember(m)];
    } else {
      var tail := Joined(WrittenMembers(more)) + end;
      MemberReads(m, [COMMA] + tail);
      MembersRead(more, rest);
      OneMoreMemberRead(WrittenMember(m), FloatMember(m), tail, FloatMembers(more), rest);
    }
  }

  // ---- the canonical text ----

  /** The value a canonical text stands for: members in order, numbers as floats. */
  function Canon(v: Json): Json { Floats(InOrder(KeyLe<Json>, v)) }

  lemma KeysApart<T>(members: seq<Entry<T>>)
    ensures DistinctKeys(members) <==>
            Distinct(members) && forall a, b :: a in members && b in members && a.key == b.key ==> a == b
  {
    if DistinctKeys(members) {
      forall a, b | a in members && b in members && a.key == b.key ensures a == b {
        var i :| 0 <= i < |members| && members[i] == a;
        var j :| 0 <= j < |members| && members[j] == b;
      }
    }
  }

  lemma PermutedMembers<T>(a: seq<Entry<T>>, b: seq<Entry<T>>)
    requires multiset(a) == multiset(b)
    ensures (forall m :: m in b <==> m in a) && |a| == |b| && (DistinctKeys(a) ==> DistinctKeys(b))
  {
    SameElements(a, b);
    if DistinctKeys(a) {
      KeysApart(a);
      DistinctPermutation(a, b);
      KeysApart(b);
    }
  }

  /** Putting members in order keeps a value serializable. */
  lemma {:induction false} InOrderSerializable(le: MemberOrder, v: Json)
    requires Serializable(v)
    ensures Serializable(InOrder(le, v))
    decreases v, 1
  {
    match v
    case Arr(items) =>
      forall i | 0 <= i < |items| ensures Serializable(InOrderItems(le, items)[i]) {
        InOrderItemsAt(le, items, i);
        InOrderSerializable(le, items[i]);
      }
    case Obj(members) =>
      var values := InOrderValues(le, members);
      forall i | 0 <= i < |members| ensures Serializable(values[i].value) {
        InOrderValuesAt(le, members, i);
        assert members[i] in members;
        InOrderSerializable(le, members[i].value);
      }
      SameElements(values, Sort(le, values));
    case _ =>
  }

  lemma {:induction false} InOrderItemsAt(le: MemberOrder, items: seq<Json>, i: nat)
    requires i < |items|
    ensures InOrderItems(le, items)[i] == InOrder(le, items[i])
  {
    if i > 0 { InOrderItemsAt(le, items[1..], i - 1); }
  }

  lemma {:induction false} InOrderValuesAt(le: MemberOrder, members: seq<Entry<Json>>, i: nat)
    requires i < |members|
    ensures InOrderValues(le, members)[i] == Entry(members[i].key, InOrder(le, members[i].value))
  {
    if i > 0 { InOrderValuesAt(le, members[1..], i - 1); }
  }

  /** Putting members in order keeps dictionaries well-formed. */
  lemma {:induction false} InOrderWellFormed(le: MemberOrder, v: Json)
    requires WellFormed(v)
    ensures WellFormed(InOrder(le, v))
    decreases v, 1
  {
    match v
    case Arr(items) =>
      var ordered := InOrderItems(le, items);
      forall i | 0 <= i < |items| ensures WellFormed(ordered[i]) {
        InOrderItemsAt(le, items, i);
        InOrderWellFormed(le, items[i]);
      }
      assert WellFormed(Arr(ordered));
    case Obj(members) =>
      var values := InOrderValues(le, members);
      forall i | 0 <= i < |members| ensures WellFormed(values[i].value) {
        InOrderValuesAt(le, members, i);
        assert members[i] in members;
        InOrderWellFormed(le, members[i].value);
      }
      ArrangedWellFormed(values, Sort(le, values));
    case _ =>
  }

  lemma ArrangedWellFormed(members: seq<Entry<Json>>, others: seq<Entry<Json>>)
    requires multiset(members) == multiset(others)
    requires DistinctKeys(members) && forall i :: 0 <= i < |members| ==> WellFormed(members[i].value)
    ensures WellFormed(Obj(others))
  {
    PermutedMembers(members, others);
    assert forall m :: m in members ==> WellFormed(m.value);
  }

  /** Parsing the canonical text of any serializable value gives its canonical value back. */
  lemma CanonicalTextLoads(v: Json)
    requires WellFormed(v) && Canonicalize(v).Ok?
    ensures Loads(Canonicalize(v).value) == Some(Canon(v))
  {
    InOrderSerializable(KeyLe<Json>, v);
    InOrderWellFormed(KeyLe<Json>, v);
    WrittenReads(InOrder(KeyLe<Json>, v), []);
    assert Written(InOrder(KeyLe<Json>, v)) + [] == Serialize(v);
  }
}
