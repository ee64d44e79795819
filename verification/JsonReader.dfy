/**
 A reader of JSON texts with integer numbers and without white space, written after the grammar of
 RFC 8259. It knows nothing of the printer; what it reads from a canonical text is the value meant.
 */
module JsonReader {
  import opened Basics
  import opened Text
  import opened CanonicalJson

  /** What was read, and the text after it. */
  datatype Parsed<+T> = Parsed(value: T, rest: Text)

  // ---------------------------------------------------------------- strings

  function HexValue(c: CodeUnit): Option<nat> {
    if 48 <= c <= 57 then Some(c - 48)
    else if 97 <= c <= 102 then Some(c - 87)
    else if 65 <= c <= 70 then Some(c - 55)
    else None
  }

  function ReadHex(t: Text): Option<Parsed<CodeUnit>> {
    if |t| < 4 then None
    else
      match (HexValue(t[0]), HexValue(t[1]), HexValue(t[2]), HexValue(t[3]))
      case (Some(a), Some(b), Some(c), Some(d)) =>
        var u := ((a * 16 + b) * 16 + c) * 16 + d;
        if u < 0x10000 then Some(Parsed(u, t[4..])) else None
      case _ => None
  }

  /** The short escapes: quote, backslash, slash, b, f, n, r and t. */
  const Escapes: map<CodeUnit, CodeUnit> :=
    map[34 := 34, 92 := 92, 47 := 47, 98 := 8, 102 := 12, 110 := 10, 114 := 13, 116 := 9]

  /** One code unit of a string: plain, or behind a backslash. Control characters must be escaped. */
  function ReadUnit(t: Text): (r: Option<Parsed<CodeUnit>>)
    ensures r.Some? ==> |r.value.rest| < |t|
  {
    if t == [] then None
    else if t[0] == 92 then
      if |t| == 1 then None
      else if t[1] == 117 then ReadHex(t[2..])
      else if t[1] in Escapes then Some(Parsed(Escapes[t[1]], t[2..]))
      else None
    else if t[0] < 32 || t[0] == 34 then None
    else Some(Parsed(t[0], t[1..]))
  }

  /** A string after its opening quote, up to the closing one. */
  function ReadString(t: Text): (r: Option<Parsed<Text>>)
    ensures r.Some? ==> |r.value.rest| < |t|
    decreases |t|
  {
    if t != [] && t[0] == 34 then Some(Parsed([], t[1..]))
    else
      match ReadUnit(t)
      case None => None
      case Some(unit) =>
        match ReadString(unit.rest)
        case None => None
        case Some(more) => Some(Parsed([unit.value] + more.value, more.rest))
  }

  // ---------------------------------------------------------------- values

  /** A run of digits without a superfluous zero in front. */
  function ReadNat(t: Text): (r: Option<Parsed<nat>>)
    ensures r.Some? ==> |r.value.rest| < |t|
  {
    var n := DigitRun(t);
    RunWithin(t);
    if n == 0 || (n > 1 && t[0] == 48) || Value(t[..n]) < 0 then None
    else Some(Parsed(Value(t[..n]), t[n..]))
  }

  lemma RunWithin(t: Text)
    ensures DigitRun(t) <= |t|
  {}

  function ReadWord(word: string, v: Json, t: Text): (r: Option<Parsed<Json>>)
    requires word != ""
    ensures r.Some? ==> |r.value.rest| < |t|
  {
    if Ascii(word) <= t then Some(Parsed(v, t[|word|..])) else None
  }

  function ReadValue(t: Text): (r: Option<Parsed<Json>>)
    ensures r.Some? ==> |r.value.rest| < |t|
    decreases |t|, 1
  {
    if t == [] then None
    else if t[0] == 110 then ReadWord("null", Null, t)
    else if t[0] == 116 then ReadWord("true", Bool(true), t)
    else if t[0] == 102 then ReadWord("false", Bool(false), t)
    else if t[0] == 34 then
      match ReadString(t[1..])
      case None => None
      case Some(p) => Some(Parsed(Str(p.value), p.rest))
    else if t[0] == 91 then
      if |t| > 1 && t[1] == 93 then Some(Parsed(Arr([]), t[2..]))
      else
        match ReadItems(t[1..])
        case None => None
        case Some(p) => Some(Parsed(Arr(p.value), p.rest))
    else if t[0] == 123 then
      if |t| > 1 && t[1] == 125 then Some(Parsed(Obj([]), t[2..]))
      else
        match ReadMembers(t[1..])
        case None => None
        case Some(p) => Some(Parsed(Obj(p.value), p.rest))
    else if t[0] == 45 then
      match ReadNat(t[1..])
      case None => None
      case Some(p) => Some(Parsed(Num(0 - p.value), p.rest))
    else
      match ReadNat(t)
      case None => None
      case Some(p) => Some(Parsed(Num(p.value), p.rest))
  }

  /** One or more values up to the closing bracket. */
  function ReadItems(t: Text): (r: Option<Parsed<seq<Json>>>)
    ensures r.Some? ==> |r.value.rest| < |t|
    decreases |t|, 2
  {
    match ReadValue(t)
    case None => None
    case Some(p) =>
      if p.rest == [] then None
      else if p.rest[0] == 93 then Some(Parsed([p.value], p.rest[1..]))
      else if p.rest[0] != 44 then None
      else
        match ReadItems(p.rest[1..])
        case None => None
        case Some(more) => Some(Parsed([p.value] + more.value, more.rest))
  }

  /** One or more members up to the closing brace. */
  function ReadMembers(t: Text): (r: Option<Parsed<seq<Entry<Json>>>>)
    ensures r.Some? ==> |r.value.rest| < |t|
    decreases |t|, 2
  {
    if t == [] || t[0] != 34 then None
    else
      match ReadString(t[1..])
      case None => None
      case Some(key) =>
        if key.rest == [] || key.rest[0] != 58 then None
        else
          match ReadValue(key.rest[1..])
          case None => None
          case Some(p) =>
            if p.rest == [] then None
            else if p.rest[0] == 125 then Some(Parsed([Entry(key.value, p.value)], p.rest[1..]))
            else if p.rest[0] != 44 then None
            else
              match ReadMembers(p.rest[1..])
              case None => None
              case Some(more) => Some(Parsed([Entry(key.value, p.value)] + more.value, more.rest))
  }

  /** A whole text as one value. */
  function Read(t: Text): Option<Json> {
    match ReadValue(t)
    case None => None
    case Some(p) => if p.rest == [] then Some(p.value) else None
  }

  // ---------------------------------------------------------------- reading back what was printed

  lemma HexBack(d: nat)
    requires d < 16
    ensures HexValue(HexDigit(d)) == Some(d)
  {}

  lemma ReadBlock(u: CodeUnit, x: Text)
    ensures ReadUnit(Block(u) + x) == Some(Parsed(u, x))
  {
    var t := Block(u) + x;
    if |Block(u)| == 6 {
      var a, b, c, d := u / 16 / 16 / 16, u / 16 / 16 % 16, u / 16 % 16, u % 16;
      HexBack(a);
      HexBack(b);
      HexBack(c);
      HexBack(d);
      assert t[2..][..4] == Block(u)[2..] && t[2..][4..] == x;
      assert ((a * 16 + b) * 16 + c) * 16 + d == u;
    } else {
      assert t[|Block(u)|..] == x;
    }
  }

  lemma OneUnit(t: Text, u: CodeUnit, rest: Text, more: Text, x: Text)
    requires t != [] && t[0] != 34 && ReadUnit(t) == Some(Parsed(u, rest)) && ReadString(rest) == Some(Parsed(more, x))
    ensures ReadString(t) == Some(Parsed([u] + more, x))
  {}

  lemma PlainUnit(u: CodeUnit, rest: Text)
    requires u >= 32 && u != 34 && u != 92
    ensures ReadUnit([u] + rest) == Some(Parsed(u, rest))
  {
    assert ([u] + rest)[1..] == rest;
  }

  lemma {:induction false} ReadEscaped(s: Text, x: Text)
    ensures ReadString(Escape(s) + ([QUOTE] + x)) == Some(Parsed(s, x))
    decreases |s|
  {
    hide ReadUnit, ReadString, Block;
    var t := Escape(s) + ([QUOTE] + x);
    if s == [] {
      assert t == [QUOTE] + x;
      EndOfString(x);
    } else if StartsWithPair(s) {
      var rest := Escape(s[2..]) + ([QUOTE] + x);
      ReadEscaped(s[2..], x);
      PlainUnit(s[1], rest);
      OneUnit([s[1]] + rest, s[1], rest, s[2..], x);
      PlainUnit(s[0], [s[1]] + rest);
      OneUnit([s[0]] + ([s[1]] + rest), s[0], [s[1]] + rest, [s[1]] + s[2..], x);
      assert t == [s[0]] + ([s[1]] + rest) && s == [s[0]] + ([s[1]] + s[2..]);
    } else {
      var rest := Escape(s[1..]) + ([QUOTE] + x);
      ReadEscaped(s[1..], x);
      ReadBlock(s[0], rest);
      assert t == Block(s[0]) + rest && s == [s[0]] + s[1..];
      OneUnit(t, s[0], rest, s[1..], x);
    }
  }

  lemma EndOfString(x: Text)
    ensures ReadString([QUOTE] + x) == Some(Parsed([], x))
  {
    assert ([QUOTE] + x)[1..] == x;
  }

  lemma ReadQuoted(s: Text, x: Text)
    ensures (Quoted(s) + x)[0] == 34 && ReadString((Quoted(s) + x)[1..]) == Some(Parsed(s, x))
  {
    hide Escape;
    ReadEscaped(s, x);
    assert (Quoted(s) + x)[1..] == Escape(s) + ([QUOTE] + x);
  }

  lemma {:induction false} NoLeadingZero(n: nat)
    ensures |Digits(n)| > 1 ==> Digits(n)[0] != ZERO
  {
    if n >= 10 {
      NoLeadingZero(n / 10);
      if n / 10 < 10 { assert Digits(n / 10) == [ZERO + n / 10]; }
    }
  }

  lemma ReadDigits(n: nat, x: Text)
    requires Delimited(x)
    ensures ReadNat(Digits(n) + x) == Some(Parsed(n, x))
  {
    hide Digits, Value;
    var t := Digits(n) + x;
    DigitRunOf(Digits(n), x);
    ValueOfDigits(n);
    NoLeadingZero(n);
    assert t[..|Digits(n)|] == Digits(n) && t[|Digits(n)|..] == x;
  }

  /** No undefined value anywhere. */
  ghost predicate Defined(v: Json) {
    match v
    case Undefined => false
    case Arr(items) => forall i :: 0 <= i < |items| ==> Defined(items[i])
    case Obj(members) => forall i :: 0 <= i < |members| ==> Defined(members[i].value)
    case _ => true
  }

  lemma NumberAhead(t: Text, n: nat, x: Text)
    requires ReadNat(t) == Some(Parsed(n, x)) && t != [] && 48 <= t[0] <= 57
    ensures ReadValue(t) == Some(Parsed(Num(n), x)) && ReadValue([MINUS] + t) == Some(Parsed(Num(0 - n), x))
  {
    hide ReadNat;
    assert ([MINUS] + t)[1..] == t;
  }

  lemma ReadNumber(n: int, x: Text)
    requires Delimited(x)
    ensures ReadValue(Decimal(n) + x) == Some(Parsed(Num(n), x))
  {
    hide ReadValue, ReadNat, Digits;
    var m := if n < 0 then -n else n;
    ReadDigits(m, x);
    assert (Digits(m) + x)[0] == Digits(m)[0];
    NumberAhead(Digits(m) + x, m, x);
    if n < 0 { Assoc([MINUS], Digits(m), x); }
  }

  lemma ReadLiteral(word: string, v: Json, x: Text)
    requires word != "" && forall i :: 0 <= i < |word| ==> word[i] as int < 128
    ensures ReadWord(word, v, Ascii(word) + x) == Some(Parsed(v, x))
  {}

  /** A printed value in front of a delimiter is read back. */
  lemma {:induction false} ReadPrinted(v: Json, x: Text)
    requires Defined(v) && Delimited(x)
    ensures ReadValue(Print(v) + x) == Some(Parsed(v, x))
    decreases v, 1
  {
    var t := Print(v) + x;
    match v
    case Null => ReadLiteral("null", v, x);
    case Bool(b) => ReadLiteral(if b then "true" else "false", v, x);
    case Num(n) => ReadNumber(n, x);
    case Str(s) => ReadQuoted(s, x);
    case Arr(items) => ReadArray(items, x);
    case Obj(members) => ReadObject(members, x);
  }

  lemma ArrayAhead(rest: Text, items: seq<Json>, x: Text)
    requires items == [] ==> rest == [93] + x
    requires items != [] ==> rest != [] && rest[0] != 93 && ReadItems(rest) == Some(Parsed(items, x))
    ensures ReadValue([91] + rest) == Some(Parsed(Arr(items), x))
  {
    hide ReadItems;
    var t := [91] + rest;
    assert t[1..] == rest;
    if items == [] { assert t[2..] == x; }
  }

  lemma {:induction false} ReadArray(items: seq<Json>, x: Text)
    requires forall i :: 0 <= i < |items| ==> Defined(items[i])
    ensures ReadValue([91] + PrintItems(items) + [93] + x) == Some(Parsed(Arr(items), x))
    decreases items, 3
  {
    hide ReadValue, ReadItems, Print;
    var rest := PrintItems(items) + [93] + x;
    ItemsHead(items, x);
    if items != [] { ReadItemsPrinted(items, x); }
    ArrayAhead(rest, items, x);
    assert [91] + PrintItems(items) + [93] + x == [91] + rest;
  }

  lemma {:induction false} ReadItemsPrinted(items: seq<Json>, x: Text)
    requires items != [] && forall i :: 0 <= i < |items| ==> Defined(items[i])
    ensures ReadItems(PrintItems(items) + [93] + x) == Some(Parsed(items, x))
    decreases items, 2
  {
    hide PrintItems, Print, ReadValue;
    var rest := ItemsRest(items, x);
    ItemsFirst(items, x);
    ReadPrinted(items[0], rest);
    if |items| == 1 {
      assert rest[1..] == x && items == [items[0]];
    } else {
      ReadItemsPrinted(items[1..], x);
      assert rest[1..] == PrintItems(items[1..]) + [93] + x;
      assert items == [items[0]] + items[1..];
    }
  }

  lemma ObjectAhead(rest: Text, members: seq<Entry<Json>>, x: Text)
    requires members == [] ==> rest == [125] + x
    requires members != [] ==> rest != [] && rest[0] != 125 && ReadMembers(rest) == Some(Parsed(members, x))
    ensures ReadValue([123] + rest) == Some(Parsed(Obj(members), x))
  {
    hide ReadMembers;
    var t := [123] + rest;
    assert t[1..] == rest;
    if members == [] { assert t[2..] == x; }
  }

  lemma {:induction false} ReadObject(members: seq<Entry<Json>>, x: Text)
    requires forall i :: 0 <= i < |members| ==> Defined(members[i].value)
    ensures ReadValue([123] + JoinMembers(PrintMembers(members)) + [125] + x) == Some(Parsed(Obj(members), x))
    decreases members, 3
  {
    hide ReadValue, ReadMembers, Print, Quoted;
    var inside := JoinMembers(PrintMembers(members));
    var rest := inside + [125] + x;
    MembersHead(members, x);
    if members != [] { ReadMembersPrinted(members, x); }
    ObjectAhead(rest, members, x);
    assert [123] + inside + [125] + x == [123] + rest;
  }

  lemma {:induction false} ReadMembersPrinted(members: seq<Entry<Json>>, x: Text)
    requires members != [] && forall i :: 0 <= i < |members| ==> Defined(members[i].value)
    ensures ReadMembers(JoinMembers(PrintMembers(members)) + [125] + x) == Some(Parsed(members, x))
    decreases members, 2
  {
    hide PrintMembers, JoinMembers, Print, Quoted, ReadValue, ReadString;
    var m, rest := members[0], MembersRest(members, x);
    MembersFirst(members, x);
    var value := Print(m.value) + rest;
    ReadQuoted(m.key, [COLON] + value);
    assert ([COLON] + value)[1..] == value;
    ReadPrinted(m.value, rest);
    assert m == Entry(m.key, m.value);
    if |members| == 1 {
      assert rest[1..] == x && members == [m];
    } else {
      ReadMembersPrinted(members[1..], x);
      assert rest[1..] == JoinMembers(PrintMembers(members[1..])) + [125] + x;
      assert members == [m] + members[1..];
    }
  }

  // ---------------------------------------------------------------- the canonical text read back

  /** A value with a text: not undefined, and no array in it has an undefined entry. */
  ghost predicate Whole(v: Json) {
    match v
    case Undefined => false
    case Arr(items) => forall i :: 0 <= i < |items| ==> Whole(items[i])
    case Obj(members) => forall i :: 0 <= i < |members| ==> members[i].value.Undefined? || Whole(members[i].value)
    case _ => true
  }

  lemma {:induction false} NormalDefined(v: Json)
    requires Whole(v)
    ensures Defined(Normal(v))
  {
    match v
    case Arr(items) =>
      assert items != [] ==> !items[0].Undefined?;
      NormalItemsDefined(items);
    case Obj(members) =>
      NormalMembersDefined(members);
      var normal := NormalMembers(members);
      SortByKeySorts(normal);
      forall i | 0 <= i < |SortByKey(normal)| ensures Defined(SortByKey(normal)[i].value) {
        assert SortByKey(normal)[i] in multiset(normal);
      }
    case _ =>
  }

  lemma {:induction false} NormalItemsDefined(items: seq<Json>)
    requires forall i :: 0 <= i < |items| ==> Whole(items[i])
    ensures forall i :: 0 <= i < |items| ==> Defined(NormalItems(items)[i])
  {
    if items != [] {
      NormalDefined(items[0]);
      NormalItemsDefined(items[1..]);
    }
  }

  lemma {:induction false} NormalMembersDefined(members: seq<Entry<Json>>)
    requires forall i :: 0 <= i < |members| ==> members[i].value.Undefined? || Whole(members[i].value)
    ensures forall i :: 0 <= i < |NormalMembers(members)| ==> Defined(NormalMembers(members)[i].value)
  {
    if members != [] {
      NormalMembersDefined(members[1..]);
      if !members[0].value.Undefined? { NormalDefined(members[0].value); }
    }
  }

  /** Reading the canonical text gives the value meant. */
  lemma CanonicalRoundTrip(v: Json)
    requires Whole(v)
    ensures Read(Canonicalize(v)) == Some(Normal(v))
  {
    hide Whole, Defined, Normal, Canonicalize, Print, ReadValue;
    CanonicalizeIsPrintNormal(v);
    NormalDefined(v);
    ReadPrinted(Normal(v), []);
    assert Print(Normal(v)) + [] == Print(Normal(v));
  }

  // ---------------------------------------------------------------- the value meant, without the printer

  predicate MemberOf(m: Entry<Json>, e: Entry<Json>) {
    m.key == e.key && !m.value.Undefined?
  }

  ghost predicate FoundAmong(members: seq<Entry<Json>>, e: Entry<Json>) {
    exists i :: 0 <= i < |members| && MemberOf(members[i], e)
  }

  ghost predicate Represented(m: Entry<Json>, entries: seq<Entry<Json>>) {
    exists j :: 0 <= j < |entries| && MemberOf(m, entries[j])
  }

  /** The keys of `entries` are those of the members with a value. */
  ghost predicate SameKeys(members: seq<Entry<Json>>, entries: seq<Entry<Json>>) {
    && (forall i :: 0 <= i < |members| && !members[i].value.Undefined? ==> Represented(members[i], entries))
    && (forall j :: 0 <= j < |entries| ==> FoundAmong(members, entries[j]))
  }

  /** `w` is `v` up to the order of members and members without a value. */
  ghost predicate Means(v: Json, w: Json) {
    match v
    case Arr(items) => w.Arr? && |w.items| == |items| && forall i :: 0 <= i < |items| ==> Means(items[i], w.items[i])
    case Obj(members) =>
      && w.Obj? && SameKeys(members, w.members)
      && forall i, j :: 0 <= i < |members| && 0 <= j < |w.members| && MemberOf(members[i], w.members[j]) ==>
           Means(members[i].value, w.members[j].value)
    case _ => w == v
  }

  /** Keys of objects are distinct, at every level. */
  ghost predicate KeysDistinct(v: Json) {
    match v
    case Arr(items) => forall i :: 0 <= i < |items| ==> KeysDistinct(items[i])
    case Obj(members) => DistinctKeys(members) && forall i :: 0 <= i < |members| ==> KeysDistinct(members[i].value)
    case _ => true
  }

  /** Keys of objects are in ascending code unit order, at every level. */
  ghost predicate KeysAscend(v: Json) {
    match v
    case Arr(items) => forall i :: 0 <= i < |items| ==> KeysAscend(items[i])
    case Obj(members) => Ascending(members) && forall i :: 0 <= i < |members| ==> KeysAscend(members[i].value)
    case _ => true
  }

  lemma {:induction false} NormalMeans(v: Json)
    requires Whole(v) && KeysDistinct(v)
    ensures Means(v, Normal(v)) && KeysAscend(Normal(v))
    decreases v, 1
  {
    match v
    case Arr(items) =>
      assert items != [] ==> !items[0].Undefined?;
      NormalItemsMean(items);
    case Obj(members) => NormalObjectMeans(members);
    case _ =>
  }

  lemma {:induction false} NormalItemsMean(items: seq<Json>)
    requires forall i :: 0 <= i < |items| ==> Whole(items[i]) && KeysDistinct(items[i])
    ensures forall i :: 0 <= i < |items| ==> Means(items[i], NormalItems(items)[i]) && KeysAscend(NormalItems(items)[i])
    decreases items, 2
  {
    if items != [] {
      NormalMeans(items[0]);
      NormalItemsMean(items[1..]);
    }
  }

  lemma NormalObjectMeans(members: seq<Entry<Json>>)
    requires DistinctKeys(members)
    requires forall i :: 0 <= i < |members| ==> members[i].value.Undefined? || Whole(members[i].value)
    requires forall i :: 0 <= i < |members| ==> KeysDistinct(members[i].value)
    ensures Means(Obj(members), Obj(SortByKey(NormalMembers(members))))
    ensures KeysAscend(Obj(SortByKey(NormalMembers(members))))
    decreases members, 3
  {
    hide Ascending, SortByKey, NormalMembers, Normal, Whole, KeysDistinct, Means, KeysAscend;
    var sorted := SortByKey(NormalMembers(members));
    NormalMembersDistinct(members);
    SortAscends(NormalMembers(members));
    forall i | 0 <= i < |members| && !members[i].value.Undefined? ensures Represented(members[i], sorted) {
      var j := MemberPlace(members, sorted, i);
      assert MemberOf(members[i], sorted[j]);
    }
    forall j | 0 <= j < |sorted| ensures FoundAmong(members, sorted[j]) && KeysAscend(sorted[j].value) {
      assert sorted[j] in multiset(NormalMembers(members));
      var i := MemberOrigin(members, sorted[j]);
      assert MemberOf(members[i], sorted[j]);
      NormalMeans(members[i].value);
    }
    forall i, j | 0 <= i < |members| && 0 <= j < |sorted| && MemberOf(members[i], sorted[j])
      ensures Means(members[i].value, sorted[j].value)
    {
      assert sorted[j] in multiset(NormalMembers(members));
      var k := MemberOrigin(members, sorted[j]);
      assert k == i;
      NormalMeans(members[i].value);
    }
    ObjectMeans(members, sorted);
    ObjectAscends(sorted);
  }

  lemma ObjectMeans(members: seq<Entry<Json>>, entries: seq<Entry<Json>>)
    requires SameKeys(members, entries)
    requires forall i, j :: 0 <= i < |members| && 0 <= j < |entries| && MemberOf(members[i], entries[j]) ==>
               Means(members[i].value, entries[j].value)
    ensures Means(Obj(members), Obj(entries))
  {
    hide SameKeys;
  }

  lemma ObjectAscends(entries: seq<Entry<Json>>)
    requires Ascending(entries) && forall j :: 0 <= j < |entries| ==> KeysAscend(entries[j].value)
    ensures KeysAscend(Obj(entries))
  {}

  lemma MemberPlace(members: seq<Entry<Json>>, sorted: seq<Entry<Json>>, i: nat) returns (j: nat)
    requires i < |members| && !members[i].value.Undefined? && multiset(sorted) == multiset(NormalMembers(members))
    ensures j < |sorted| && sorted[j] == Entry(members[i].key, Normal(members[i].value))
  {
    hide NormalMembers, Normal;
    MemberKept(members, i);
    var e := Entry(members[i].key, Normal(members[i].value));
    assert e in multiset(sorted);
    j :| 0 <= j < |sorted| && sorted[j] == e;
  }

  lemma {:induction false} MemberKept(members: seq<Entry<Json>>, i: nat)
    requires i < |members| && !members[i].value.Undefined?
    ensures Entry(members[i].key, Normal(members[i].value)) in NormalMembers(members)
  {
    if i > 0 { MemberKept(members[1..], i - 1); }
  }

  lemma {:induction false} MemberOrigin(members: seq<Entry<Json>>, e: Entry<Json>) returns (i: nat)
    requires e in NormalMembers(members)
    ensures i < |members| && !members[i].value.Undefined? && e == Entry(members[i].key, Normal(members[i].value))
  {
    if !members[0].value.Undefined? && e == Entry(members[0].key, Normal(members[0].value)) {
      i := 0;
    } else {
      var k := MemberOrigin(members[1..], e);
      i := k + 1;
    }
  }

  /**
   Reading the canonical text gives the same value up to the order of members and members without a
   value, with the keys in ascending code unit order at every level.
   */
  lemma CanonicalMeaning(v: Json)
    requires Whole(v) && KeysDistinct(v)
    ensures Read(Canonicalize(v)).Some?
    ensures Means(v, Read(Canonicalize(v)).value) && KeysAscend(Read(Canonicalize(v)).value)
  {
    hide Whole, KeysDistinct, Means, KeysAscend, Normal, Canonicalize, Read;
    CanonicalRoundTrip(v);
    NormalMeans(v);
  }

  /**
   A code unit that is not half of a surrogate pair is written in the shortest way that reads back,
   and hexadecimal digits in lower case.
   */
  lemma EscapeShortest(u: CodeUnit, t: Text)
    requires !IsHigh(u) && !IsLow(u) && ReadUnit(t) == Some(Parsed(u, []))
    ensures |Block(u)| <= |t|
    ensures forall i :: 2 <= i < |Block(u)| ==> !(65 <= Block(u)[i] <= 70)
  {
    if |t| == 2 {
      assert t[2..] == [];
    }
  }

  /** Half of a surrogate pair on its own is always written as an escape. */
  lemma LoneSurrogateEscaped(u: CodeUnit)
    requires IsHigh(u) || IsLow(u)
    ensures |Escape([u])| == 6 && Escape([u])[..2] == [92, 117]
  {
    assert Escape([u]) == Block(u) + Escape([]);
  }
}
