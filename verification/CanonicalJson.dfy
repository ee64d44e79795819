/**
 The canonical JSON text of a value: members without a value dropped, keys in code-unit order, no
 white space. Objects are ordered member lists with distinct keys, as a script engine keeps them;
 numbers are integers, printed in decimal.
 */
module CanonicalJson {
  import opened Basics
  import opened Text

  datatype Json =
    | Undefined
    | Null
    | Bool(b: bool)
    | Num(n: int)
    | Str(s: Text)
    | Arr(items: seq<Json>)
    | Obj(members: seq<Entry<Json>>)

  const QUOTE: CodeUnit := 34
  const BACKSLASH: CodeUnit := 92
  const COMMA: CodeUnit := 44
  const COLON: CodeUnit := 58
  const MINUS: CodeUnit := 45
  const ZERO: CodeUnit := 48

  // ---------------------------------------------------------------- strings

  function HexDigit(d: nat): CodeUnit
    requires d < 16
  {
    if d < 10 then ZERO + d else 87 + d
  }

  /** One code unit inside a JSON string literal; `u` is not half of a surrogate pair. */
  function Block(u: CodeUnit): (block: Text)
    ensures block != [] && block[0] != QUOTE
  {
    if u == QUOTE || u == BACKSLASH then [BACKSLASH, u]
    else if u == 8 then [BACKSLASH, 98]
    else if u == 9 then [BACKSLASH, 116]
    else if u == 10 then [BACKSLASH, 110]
    else if u == 12 then [BACKSLASH, 102]
    else if u == 13 then [BACKSLASH, 114]
    else if u < 32 || IsHigh(u) || IsLow(u) then
      [BACKSLASH, 117, HexDigit(u / 16 / 16 / 16), HexDigit(u / 16 / 16 % 16), HexDigit(u / 16 % 16), HexDigit(u % 16)]
    else [u]
  }

  /** String contents with escapes; surrogate pairs stay as they are, lone surrogates are escaped. */
  function Escape(s: Text): Text {
    if s == [] then []
    else if StartsWithPair(s) then s[..2] + Escape(s[2..])
    else Block(s[0]) + Escape(s[1..])
  }

  function Quoted(s: Text): Text {
    [QUOTE] + Escape(s) + [QUOTE]
  }

  // ---------------------------------------------------------------- values

  function Digits(n: nat): (digits: Text)
    ensures digits != [] && forall i :: 0 <= i < |digits| ==> ZERO <= digits[i] <= 57
  {
    if n < 10 then [ZERO + n] else Digits(n / 10) + [ZERO + n % 10]
  }

  /** The number that a run of decimal digits stands for. */
  function Value(s: Text): int {
    if s == [] then 0 else 10 * Value(s[..|s| - 1]) + (s[|s| - 1] - ZERO)
  }

  lemma {:induction false} ValueOfDigits(n: nat)
    ensures Value(Digits(n)) == n
  {
    if n < 10 {
      assert [ZERO + n][..0] == [];
    } else {
      ValueOfDigits(n / 10);
      assert (Digits(n / 10) + [ZERO + n % 10])[..|Digits(n / 10)|] == Digits(n / 10);
    }
  }

  function Decimal(n: int): Text {
    if n < 0 then [MINUS] + Digits(-n) else Digits(n)
  }

  /** Members with their values already in canonical text, joined. */
  function JoinMembers(members: seq<Entry<Text>>): Text {
    if members == [] then []
    else Quoted(members[0].key) + [COLON] + members[0].value
         + (if |members| == 1 then [] else [COMMA] + JoinMembers(members[1..]))
  }

  /** The canonical text. An undefined array entry joins as nothing. */
  function Canonicalize(v: Json): Text {
    match v
    case Undefined => []
    case Null => Ascii("null")
    case Bool(b) => if b then Ascii("true") else Ascii("false")
    case Num(n) => Decimal(n)
    case Str(s) => Quoted(s)
    case Arr(items) => [91] + CanonicalItems(items) + [93]
    case Obj(members) => [123] + JoinMembers(SortByKey(CanonicalMembers(members))) + [125]
  }

  function CanonicalItems(items: seq<Json>): Text {
    if items == [] then []
    else Canonicalize(items[0]) + (if |items| == 1 then [] else [COMMA] + CanonicalItems(items[1..]))
  }

  function CanonicalMembers(members: seq<Entry<Json>>): seq<Entry<Text>> {
    if members == [] then []
    else if members[0].value.Undefined? then CanonicalMembers(members[1..])
    else [Entry(members[0].key, Canonicalize(members[0].value))] + CanonicalMembers(members[1..])
  }

  // ---------------------------------------------------------------- the value meant

  /**
   The value meant: absent members dropped and keys in order, at every level. An array whose only
   entry is undefined reads as the empty array.
   */
  function Normal(v: Json): Json {
    match v
    case Arr(items) => if items == [Undefined] then Arr([]) else Arr(NormalItems(items))
    case Obj(members) => Obj(SortByKey(NormalMembers(members)))
    case _ => v
  }

  function NormalItems(items: seq<Json>): (r: seq<Json>)
    ensures |r| == |items|
  {
    if items == [] then [] else [Normal(items[0])] + NormalItems(items[1..])
  }

  function NormalMembers(members: seq<Entry<Json>>): seq<Entry<Json>> {
    if members == [] then []
    else if members[0].value.Undefined? then NormalMembers(members[1..])
    else [Entry(members[0].key, Normal(members[0].value))] + NormalMembers(members[1..])
  }

  /** The values `Normal` gives: no absent member, no array with an undefined entry alone. */
  ghost predicate Clean(v: Json) {
    match v
    case Arr(items) => items != [Undefined] && forall i :: 0 <= i < |items| ==> Clean(items[i])
    case Obj(members) => forall i :: 0 <= i < |members| ==> !members[i].value.Undefined? && Clean(members[i].value)
    case _ => true
  }

  // ---------------------------------------------------------------- text of a value in normal form

  function Print(v: Json): Text {
    match v
    case Undefined => []
    case Null => Ascii("null")
    case Bool(b) => if b then Ascii("true") else Ascii("false")
    case Num(n) => Decimal(n)
    case Str(s) => Quoted(s)
    case Arr(items) => [91] + PrintItems(items) + [93]
    case Obj(members) => [123] + JoinMembers(PrintMembers(members)) + [125]
  }

  function PrintItems(items: seq<Json>): Text {
    if items == [] then []
    else Print(items[0]) + (if |items| == 1 then [] else [COMMA] + PrintItems(items[1..]))
  }

  function PrintMembers(members: seq<Entry<Json>>): (r: seq<Entry<Text>>)
    ensures |r| == |members|
  {
    if members == [] then []
    else [Entry(members[0].key, Print(members[0].value))] + PrintMembers(members[1..])
  }

  lemma {:induction false} InsertPrinted(e: Entry<Json>, s: seq<Entry<Json>>)
    ensures PrintMembers(Insert(e, s)) == Insert(Entry(e.key, Print(e.value)), PrintMembers(s))
  {
    var p := Entry(e.key, Print(e.value));
    if s == [] || !Less(s[0].key, e.key) {
      assert ([e] + s)[1..] == s;
    } else {
      InsertPrinted(e, s[1..]);
      assert ([s[0]] + Insert(e, s[1..]))[1..] == Insert(e, s[1..]);
      assert PrintMembers(s)[1..] == PrintMembers(s[1..]);
    }
  }

  lemma {:induction false} SortPrinted(s: seq<Entry<Json>>)
    ensures PrintMembers(SortByKey(s)) == SortByKey(PrintMembers(s))
  {
    if s != [] {
      SortPrinted(s[1..]);
      InsertPrinted(s[0], SortByKey(s[1..]));
      assert PrintMembers(s)[1..] == PrintMembers(s[1..]);
    }
  }

  /** The canonical text is the plain text of the normal form. */
  lemma {:induction false} CanonicalizeIsPrintNormal(v: Json)
    ensures Canonicalize(v) == Print(Normal(v))
  {
    match v
    case Arr(items) =>
      ItemsPrintNormal(items);
      if items == [Undefined] { assert CanonicalItems(items) == []; }
    case Obj(members) =>
      MembersPrintNormal(members);
      SortPrinted(NormalMembers(members));
    case _ =>
  }

  lemma {:induction false} ItemsPrintNormal(items: seq<Json>)
    ensures CanonicalItems(items) == PrintItems(NormalItems(items))
  {
    if items != [] {
      CanonicalizeIsPrintNormal(items[0]);
      ItemsPrintNormal(items[1..]);
      assert NormalItems(items)[1..] == NormalItems(items[1..]);
    }
  }

  lemma {:induction false} MembersPrintNormal(members: seq<Entry<Json>>)
    ensures CanonicalMembers(members) == PrintMembers(NormalMembers(members))
  {
    if members != [] {
      MembersPrintNormal(members[1..]);
      if !members[0].value.Undefined? {
        CanonicalizeIsPrintNormal(members[0].value);
        assert NormalMembers(members)[1..] == NormalMembers(members[1..]);
      }
    }
  }

  // ---------------------------------------------------------------- the text determines the value

  /** What may follow a value inside a document: nothing, or a comma or closing bracket. */
  predicate Delimited(rest: Text) {
    rest == [] || rest[0] == COMMA || rest[0] == 93 || rest[0] == 125
  }

  lemma HexUnique(u: CodeUnit, v: CodeUnit)
    requires HexDigit(u / 16 / 16 / 16) == HexDigit(v / 16 / 16 / 16)
             && HexDigit(u / 16 / 16 % 16) == HexDigit(v / 16 / 16 % 16)
    requires HexDigit(u / 16 % 16) == HexDigit(v / 16 % 16) && HexDigit(u % 16) == HexDigit(v % 16)
    ensures u == v
  {
    assert u / 16 / 16 == v / 16 / 16;
    assert u / 16 == v / 16;
  }

  lemma SplitAt(a: Text, x: Text, b: Text, y: Text)
    requires a + x == b + y && |a| == |b|
    ensures a == b && x == y
  {
    assert (a + x)[..|a|] == a && (b + y)[..|a|] == b;
    assert (a + x)[|a|..] == x && (b + y)[|a|..] == y;
  }

  lemma Assoc(a: Text, b: Text, c: Text)
    ensures a + b + c == a + (b + c)
  {}

  lemma BlockUnique(u: CodeUnit, x: Text, v: CodeUnit, y: Text)
    requires Block(u) + x == Block(v) + y
    ensures u == v && x == y
  {
    assert (Block(u) + x)[0] == Block(u)[0] && (Block(v) + y)[0] == Block(v)[0];
    if Block(u)[0] == BACKSLASH {
      assert (Block(u) + x)[1] == Block(u)[1] && (Block(v) + y)[1] == Block(v)[1];
    }
    SplitAt(Block(u), x, Block(v), y);
    if |Block(u)| == 6 {
      HexUnique(u, v);
    }
  }

  /** The first symbol of a non-empty string: a surrogate pair or one escaped code unit. */
  function FirstBlock(s: Text): (block: Text)
    requires s != []
    ensures block != [] && block[0] != QUOTE
  {
    if StartsWithPair(s) then s[..2] else Block(s[0])
  }

  function FirstSize(s: Text): (n: nat)
    requires s != []
    ensures 1 <= n <= |s|
  {
    if StartsWithPair(s) then 2 else 1
  }

  lemma FirstBlockUnique(s: Text, x: Text, t: Text, y: Text)
    requires s != [] && t != [] && FirstBlock(s) + x == FirstBlock(t) + y
    ensures FirstSize(s) == FirstSize(t) && s[..FirstSize(s)] == t[..FirstSize(t)] && x == y
  {
    assert (FirstBlock(s) + x)[0] == FirstBlock(s)[0] && (FirstBlock(t) + y)[0] == FirstBlock(t)[0];
    if StartsWithPair(s) {
      SplitAt(FirstBlock(s), x, FirstBlock(t), y);
    } else {
      BlockUnique(s[0], x, t[0], y);
    }
  }

  lemma EscapeFirst(s: Text, x: Text)
    requires s != []
    ensures Escape(s) + x == FirstBlock(s) + (Escape(s[FirstSize(s)..]) + x)
  {
    Assoc(FirstBlock(s), Escape(s[FirstSize(s)..]), x);
  }

  lemma EscapeHead(s: Text, x: Text)
    ensures (Escape(s) + ([QUOTE] + x))[0] == QUOTE <==> s == []
  {
    if s != [] {
      EscapeFirst(s, [QUOTE] + x);
      assert (FirstBlock(s) + (Escape(s[FirstSize(s)..]) + ([QUOTE] + x)))[0] == FirstBlock(s)[0];
    }
  }

  /** A string literal ends at its closing quote and nowhere else. */
  lemma {:induction false} EscapeUnique(s: Text, x: Text, t: Text, y: Text)
    requires Escape(s) + ([QUOTE] + x) == Escape(t) + ([QUOTE] + y)
    ensures s == t && x == y
    decreases |s|
  {
    hide FirstBlock, FirstSize;
    EscapeHead(s, x);
    EscapeHead(t, y);
    if s == [] {
      SplitAt([], [QUOTE] + x, [], [QUOTE] + y);
      SplitAt([QUOTE], x, [QUOTE], y);
    } else {
      var n, m := FirstSize(s), FirstSize(t);
      EscapeFirst(s, [QUOTE] + x);
      EscapeFirst(t, [QUOTE] + y);
      FirstBlockUnique(s, Escape(s[n..]) + ([QUOTE] + x), t, Escape(t[m..]) + ([QUOTE] + y));
      EscapeUnique(s[n..], x, t[n..], y);
      assert s == s[..n] + s[n..] && t == t[..n] + t[n..];
    }
  }

  lemma QuotedUnique(s: Text, x: Text, t: Text, y: Text)
    requires Quoted(s) + x == Quoted(t) + y
    ensures s == t && x == y
  {
    hide Escape;
    Assoc([QUOTE] + Escape(s), [QUOTE], x);
    Assoc([QUOTE], Escape(s), [QUOTE] + x);
    Assoc([QUOTE] + Escape(t), [QUOTE], y);
    Assoc([QUOTE], Escape(t), [QUOTE] + y);
    SplitAt([QUOTE], Escape(s) + ([QUOTE] + x), [QUOTE], Escape(t) + ([QUOTE] + y));
    EscapeUnique(s, x, t, y);
  }

  lemma {:induction false} DigitsInjective(m: nat, n: nat)
    requires Digits(m) == Digits(n)
    ensures m == n
  {
    if m >= 10 && n >= 10 {
      SplitAt2(Digits(m / 10), ZERO + m % 10, Digits(n / 10), ZERO + n % 10);
      DigitsInjective(m / 10, n / 10);
    }
  }

  lemma SplitAt2(a: Text, c: CodeUnit, b: Text, d: CodeUnit)
    requires a + [c] == b + [d]
    ensures a == b && c == d
  {
    assert |a + [c]| == |b + [d]|;
    SplitAt(a, [c], b, [d]);
    assert [c][0] == [d][0];
  }

  function DigitRun(s: Text): nat {
    if s != [] && ZERO <= s[0] <= 57 then 1 + DigitRun(s[1..]) else 0
  }

  lemma {:induction false} DigitRunOf(a: Text, x: Text)
    requires Delimited(x) && forall i :: 0 <= i < |a| ==> ZERO <= a[i] <= 57
    ensures DigitRun(a + x) == |a|
  {
    if a == [] {
      assert a + x == x;
    } else {
      assert (a + x)[1..] == a[1..] + x;
      DigitRunOf(a[1..], x);
    }
  }

  lemma DigitsUnique(m: nat, x: Text, n: nat, y: Text)
    requires Digits(m) + x == Digits(n) + y && Delimited(x) && Delimited(y)
    ensures m == n && x == y
  {
    hide Digits;
    DigitRunOf(Digits(m), x);
    DigitRunOf(Digits(n), y);
    SplitAt(Digits(m), x, Digits(n), y);
    DigitsInjective(m, n);
  }

  lemma DecimalUnique(m: int, x: Text, n: int, y: Text)
    requires Decimal(m) + x == Decimal(n) + y && Delimited(x) && Delimited(y)
    ensures m == n && x == y
  {
    hide Digits, Delimited;
    assert (Decimal(m) + x)[0] == Decimal(m)[0] && (Decimal(n) + y)[0] == Decimal(n)[0];
    if m < 0 {
      Assoc([MINUS], Digits(-m), x);
      Assoc([MINUS], Digits(-n), y);
      SplitAt([MINUS], Digits(-m) + x, [MINUS], Digits(-n) + y);
      DigitsUnique(-m, x, -n, y);
    } else {
      DigitsUnique(m, x, n, y);
    }
  }

  /** The first code unit tells which kind of value follows. */
  function Lead(v: Json): CodeUnit {
    match v
    case Undefined => 0
    case Null => 110
    case Bool(b) => if b then 116 else 102
    case Num(n) => if n < 0 then MINUS else Digits(n)[0]
    case Str(_) => QUOTE
    case Arr(_) => 91
    case Obj(_) => 123
  }

  lemma LeadFirst(v: Json, x: Text)
    ensures !v.Undefined? ==> Print(v) != [] && (Print(v) + x)[0] == Lead(v) && !Delimited(Print(v) + x)
    ensures v.Undefined? ==> Print(v) + x == x
  {}

  /** Values with the same first code unit are of the same kind. */
  lemma SameLead(v: Json, w: Json)
    requires !v.Undefined? && !w.Undefined? && Lead(v) == Lead(w)
    ensures v.Null? <==> w.Null?
    ensures v.Bool? ==> v == w
    ensures v.Num? <==> w.Num?
    ensures v.Str? <==> w.Str?
    ensures v.Arr? <==> w.Arr?
    ensures v.Obj? <==> w.Obj?
  {
    hide Digits;
  }

  lemma Enclosed(open: CodeUnit, a: Text, close: CodeUnit, x: Text, b: Text, y: Text)
    requires [open] + a + [close] + x == [open] + b + [close] + y
    ensures a + [close] + x == b + [close] + y
  {
    var l, r := a + [close] + x, b + [close] + y;
    assert [open] + a + [close] + x == [open] + l;
    assert [open] + b + [close] + y == [open] + r;
    SplitAt([open], l, [open], r);
  }

  /** Two printed values in front of delimiters are equal only if the values are. */
  lemma {:induction false} PrintUnique(v: Json, x: Text, w: Json, y: Text)
    requires Clean(v) && Clean(w) && Delimited(x) && Delimited(y)
    requires Print(v) + x == Print(w) + y
    ensures v == w && x == y
    decreases v
  {
    hide Delimited, Lead, Quoted, Decimal, PrintItems, JoinMembers, PrintMembers;
    LeadFirst(v, x);
    LeadFirst(w, y);
    if !v.Undefined? { SameLead(v, w); }
    match v
    case Undefined =>
    case Null => SplitAt(Print(v), x, Print(w), y);
    case Bool(_) => SplitAt(Print(v), x, Print(w), y);
    case Num(m) => DecimalUnique(m, x, w.n, y);
    case Str(s) => QuotedUnique(s, x, w.s, y);
    case Arr(items) =>
      Enclosed(91, PrintItems(items), 93, x, PrintItems(w.items), y);
      ItemsHead(items, x);
      ItemsHead(w.items, y);
      ItemsUnique(items, x, w.items, y);
    case Obj(members) =>
      Enclosed(123, JoinMembers(PrintMembers(members)), 125, x, JoinMembers(PrintMembers(w.members)), y);
      MembersUnique(members, x, w.members, y);
  }

  function ItemsRest(items: seq<Json>, x: Text): Text
    requires items != []
  {
    if |items| == 1 then [93] + x else [COMMA] + (PrintItems(items[1..]) + [93] + x)
  }

  lemma ItemsFirst(items: seq<Json>, x: Text)
    requires items != []
    ensures PrintItems(items) + [93] + x == Print(items[0]) + ItemsRest(items, x)
    ensures Delimited(ItemsRest(items, x))
  {}

  lemma ItemsHead(items: seq<Json>, x: Text)
    requires items != [Undefined]
    ensures (PrintItems(items) + [93] + x)[0] == 93 <==> items == []
  {
    hide Print;
    if items != [] {
      ItemsFirst(items, x);
      LeadFirst(items[0], ItemsRest(items, x));
    }
  }

  lemma {:induction false} ItemsUnique(a: seq<Json>, x: Text, b: seq<Json>, y: Text)
    requires (forall i :: 0 <= i < |a| ==> Clean(a[i])) && (forall i :: 0 <= i < |b| ==> Clean(b[i]))
    requires a == [] <==> b == []
    requires PrintItems(a) + [93] + x == PrintItems(b) + [93] + y
    ensures a == b && x == y
    decreases a
  {
    hide Print, PrintItems;
    if a == [] {
      SplitAt(PrintItems([]) + [93], x, PrintItems([]) + [93], y);
    } else {
      ItemsFirst(a, x);
      ItemsFirst(b, y);
      var ra, rb := ItemsRest(a, x), ItemsRest(b, y);
      PrintUnique(a[0], ra, b[0], rb);
      assert ra[0] == rb[0];
      assert ra[1..] == rb[1..];
      if |a| > 1 {
        assert ra[1..] == PrintItems(a[1..]) + [93] + x && rb[1..] == PrintItems(b[1..]) + [93] + y;
        ItemsUnique(a[1..], x, b[1..], y);
      } else {
        assert ra[1..] == x && rb[1..] == y;
      }
      assert a == [a[0]] + a[1..] && b == [b[0]] + b[1..];
    }
  }

  function MembersRest(members: seq<Entry<Json>>, x: Text): Text
    requires members != []
  {
    if |members| == 1 then [125] + x else [COMMA] + (JoinMembers(PrintMembers(members[1..])) + [125] + x)
  }

  lemma MembersFirst(members: seq<Entry<Json>>, x: Text)
    requires members != []
    ensures JoinMembers(PrintMembers(members)) + [125] + x
            == Quoted(members[0].key) + ([COLON] + (Print(members[0].value) + MembersRest(members, x)))
    ensures Delimited(MembersRest(members, x))
  {
    hide Quoted, Print;
    var e, v, tail := Quoted(members[0].key), Print(members[0].value), PrintMembers(members)[1..];
    assert tail == PrintMembers(members[1..]);
    var d := if |members| == 1 then [] else [COMMA] + JoinMembers(tail);
    Assoc(e + [COLON] + v + d, [125], x);
    Assoc(e + [COLON] + v, d, [125] + x);
    Assoc(e + [COLON], v, d + ([125] + x));
    Assoc(e, [COLON], v + (d + ([125] + x)));
    if |members| > 1 {
      Assoc([COMMA], JoinMembers(tail), [125] + x);
      Assoc(JoinMembers(tail), [125], x);
    }
  }

  lemma MembersHead(members: seq<Entry<Json>>, x: Text)
    ensures (JoinMembers(PrintMembers(members)) + [125] + x)[0] == 125 <==> members == []
  {
    if members != [] {
      hide Escape, Print, JoinMembers;
      MembersFirst(members, x);
    }
  }

  lemma {:induction false} MembersUnique(a: seq<Entry<Json>>, x: Text, b: seq<Entry<Json>>, y: Text)
    requires (forall i :: 0 <= i < |a| ==> Clean(a[i].value)) && (forall i :: 0 <= i < |b| ==> Clean(b[i].value))
    requires JoinMembers(PrintMembers(a)) + [125] + x == JoinMembers(PrintMembers(b)) + [125] + y
    ensures a == b && x == y
    decreases a
  {
    hide Print, PrintMembers, JoinMembers, Quoted, MembersRest;
    MembersHead(a, x);
    MembersHead(b, y);
    if a == [] {
      SplitAt(JoinMembers(PrintMembers([])) + [125], x, JoinMembers(PrintMembers([])) + [125], y);
    } else {
      MembersFirst(a, x);
      MembersFirst(b, y);
      var ra, rb := MembersRest(a, x), MembersRest(b, y);
      QuotedUnique(a[0].key, [COLON] + (Print(a[0].value) + ra), b[0].key, [COLON] + (Print(b[0].value) + rb));
      SplitAt([COLON], Print(a[0].value) + ra, [COLON], Print(b[0].value) + rb);
      PrintUnique(a[0].value, ra, b[0].value, rb);
      MembersTail(a, x, b, y);
      if |a| > 1 { MembersUnique(a[1..], x, b[1..], y); }
      assert a == [a[0]] + a[1..] && b == [b[0]] + b[1..];
    }
  }

  lemma MembersTail(a: seq<Entry<Json>>, x: Text, b: seq<Entry<Json>>, y: Text)
    requires a != [] && b != [] && MembersRest(a, x) == MembersRest(b, y)
    ensures |a| == 1 <==> |b| == 1
    ensures |a| == 1 ==> x == y
    ensures |a| > 1 ==> JoinMembers(PrintMembers(a[1..])) + [125] + x == JoinMembers(PrintMembers(b[1..])) + [125] + y
  {
    hide PrintMembers, JoinMembers;
    var ra, rb := MembersRest(a, x), MembersRest(b, y);
    assert ra[0] == rb[0];
    assert ra[1..] == rb[1..];
    if |a| > 1 {
      assert ra[1..] == JoinMembers(PrintMembers(a[1..])) + [125] + x
        && rb[1..] == JoinMembers(PrintMembers(b[1..])) + [125] + y;
    } else {
      assert ra[1..] == x && rb[1..] == y;
    }
  }

  // ---------------------------------------------------------------- main results

  lemma {:induction false} NormalClean(v: Json)
    ensures Clean(Normal(v)) && (Normal(v).Undefined? <==> v.Undefined?)
  {
    match v
    case Arr(items) =>
      NormalItemsClean(items);
      if items != [Undefined] && NormalItems(items) == [Undefined] {
        assert NormalItems(items)[0] == Normal(items[0]);
        NormalClean(items[0]);
        assert false;
      }
    case Obj(members) =>
      NormalMembersClean(members);
      var ms := NormalMembers(members);
      SortByKeySorts(ms);
      forall i | 0 <= i < |SortByKey(ms)|
        ensures !SortByKey(ms)[i].value.Undefined? && Clean(SortByKey(ms)[i].value)
      {
        assert SortByKey(ms)[i] in multiset(ms);
      }
    case _ =>
  }

  lemma {:induction false} NormalItemsClean(items: seq<Json>)
    ensures forall i :: 0 <= i < |items| ==> Clean(NormalItems(items)[i])
  {
    if items != [] {
      NormalClean(items[0]);
      NormalItemsClean(items[1..]);
    }
  }

  lemma {:induction false} NormalMembersClean(members: seq<Entry<Json>>)
    ensures forall i :: 0 <= i < |NormalMembers(members)| ==>
              !NormalMembers(members)[i].value.Undefined? && Clean(NormalMembers(members)[i].value)
  {
    if members != [] {
      NormalMembersClean(members[1..]);
      NormalClean(members[0].value);
    }
  }

  /**
   The canonical text fixes the value meant and nothing else: for all values, the texts are the same
   exactly when the values are the same up to key order, absent members and `[undefined]` for `[]`.
   */
  lemma CanonicalTextFixesValue(v: Json, w: Json)
    ensures Canonicalize(v) == Canonicalize(w) <==> Normal(v) == Normal(w)
  {
    CanonicalizeIsPrintNormal(v);
    CanonicalizeIsPrintNormal(w);
    NormalClean(v);
    NormalClean(w);
    if Canonicalize(v) == Canonicalize(w) {
      PrintUnique(Normal(v), [], Normal(w), []);
    }
  }

  /** The one collision: an array with an undefined entry alone prints like the empty array. */
  lemma UndefinedEntryCollides()
    ensures Canonicalize(Arr([Undefined])) == Canonicalize(Arr([]))
  {
    CanonicalTextFixesValue(Arr([Undefined]), Arr([]));
  }

  lemma {:induction false} NormalMembersConcat(a: seq<Entry<Json>>, b: seq<Entry<Json>>)
    ensures NormalMembers(a + b) == NormalMembers(a) + NormalMembers(b)
  {
    if a == [] {
      assert a + b == b;
    } else {
      assert (a + b)[1..] == a[1..] + b;
      NormalMembersConcat(a[1..], b);
    }
  }

  lemma {:induction false} NormalMembersPermuted(a: seq<Entry<Json>>, b: seq<Entry<Json>>)
    requires multiset(a) == multiset(b)
    ensures multiset(NormalMembers(a)) == multiset(NormalMembers(b))
  {
    hide NormalMembers;
    if a == [] {
      assert |multiset(b)| == 0;
    } else {
      var k := TakeOut(a, b);
      var l, r := b[..k], b[k + 1..];
      assert a == [a[0]] + a[1..];
      NormalMembersPermuted(a[1..], l + r);
      NormalMembersConcat(l, r);
      NormalMembersConcat(l + [a[0]], r);
      NormalMembersConcat(l, [a[0]]);
      NormalMembersConcat([a[0]], a[1..]);
    }
  }

  lemma {:induction false} NormalMembersDistinct(a: seq<Entry<Json>>)
    requires DistinctKeys(a)
    ensures DistinctKeys(NormalMembers(a))
    ensures forall i :: 0 <= i < |NormalMembers(a)| ==> exists j :: 0 <= j < |a| && a[j].key == NormalMembers(a)[i].key
  {
    if a != [] {
      NormalMembersDistinct(a[1..]);
      var rest, whole := NormalMembers(a[1..]), NormalMembers(a);
      forall i | 0 <= i < |rest| ensures exists j :: 1 <= j < |a| && a[j].key == rest[i].key {
        var j :| 0 <= j < |a[1..]| && a[1..][j].key == rest[i].key;
        assert a[j + 1].key == rest[i].key;
      }
    }
  }

  /** Reordering the members of an object changes neither its text nor its normal form. */
  lemma KeyOrderIrrelevant(a: seq<Entry<Json>>, b: seq<Entry<Json>>)
    requires multiset(a) == multiset(b) && DistinctKeys(a)
    ensures Canonicalize(Obj(a)) == Canonicalize(Obj(b)) && Normal(Obj(a)) == Normal(Obj(b))
  {
    NormalMembersPermuted(a, b);
    NormalMembersDistinct(a);
    SortForgetsOrder(NormalMembers(a), NormalMembers(b));
    CanonicalizeIsPrintNormal(Obj(a));
    CanonicalizeIsPrintNormal(Obj(b));
  }
}
