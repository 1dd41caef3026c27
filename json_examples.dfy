/** The parser's unit tests (haversine/src/parse.rs, the `tests` module),
    each proved for the input it uses. */
module JsonExamples {
  import opened Results
  import opened JsonParse
  import opened JsonTestText

  /** A scalar written alone parses to itself. */
  lemma ParseAlone(v: Value, text: string)
    requires !v.Object? && !v.Array? && ValidValue(v) && text == Render(AtomToken(v))
    ensures Parse(text) == Ok(v)
  {
    AtomStep(v, "");
    assert text + "" == text;
  }

  /** `test_parse_null`. */
  lemma ParseNull()
    ensures Parse("null") == Ok(Value.Null)
  {
    ParseAlone(Value.Null, "null");
  }

  /** `test_parse_bool`. */
  lemma ParseTrue()
    ensures Parse("true") == Ok(Value.Boolean(true))
  {
    ParseAlone(Value.Boolean(true), "true");
  }

  lemma ParseFalse()
    ensures Parse("false") == Ok(Value.Boolean(false))
  {
    ParseAlone(Value.Boolean(false), "false");
  }

  /** `test_parse_string`. */
  lemma ParseHello()
    ensures Parse("\"hello world\"") == Ok(Value.String("hello world"))
  {
    HelloText();
    ParseAlone(Value.String("hello world"), "\"hello world\"");
  }

  lemma HelloText()
    ensures ValidValue(Value.String("hello world"))
    ensures "\"hello world\"" == Render(AtomToken(Value.String("hello world")))
  {
  }

  /** `test_parse_num`: the lexeme is kept as written. */
  lemma ParseNumber(l: string)
    requires NumberLexeme(l)
    ensures Parse(l) == Ok(Value.Number(l))
  {
    ParseAlone(Value.Number(l), l);
  }

  lemma ParseDecimal()
    ensures Parse("12345.12345") == Ok(Value.Number("12345.12345"))
  {
    assert IsDigit("12345.12345"[0]);
    ParseNumber("12345.12345");
  }

  lemma ParseTen()
    ensures Parse("10") == Ok(Value.Number("10"))
  {
    assert IsDigit("10"[0]);
    ParseNumber("10");
  }

  lemma ParseMinusHundred()
    ensures Parse("-100") == Ok(Value.Number("-100"))
  {
    assert IsDigit("-100"[1]);
    ParseNumber("-100");
  }

  lemma ParseMinusPi()
    ensures Parse("-3.1415") == Ok(Value.Number("-3.1415"))
  {
    assert IsDigit("-3.1415"[1]);
    ParseNumber("-3.1415");
  }

  /** One line: a comma and a space between elements. */
  const OneLine := Layout("", ", ", "", "", "", None)

  /** The elements' text, one element at a time. */
  lemma ElementsCons(e: Value, tail: seq<Value>, lay: Layout, sep: string, rest: string)
    ensures ElementsThen([e] + tail, lay, sep, rest) == sep + SerializeThen(e, Inner(lay), ElementsThen(tail, lay, lay.between, rest))
  {
    assert ([e] + tail)[1..] == tail;
  }

  /** The array test's text is the one-line layout of its value. */
  lemma ArrayText(es: seq<Value>)
    requires es == [Value.Null, Value.Boolean(true), Value.Number("1.2"), Value.String("hello")]
    ensures Serialize(Array(es), OneLine) == ArrayTestText
  {
    var lay := OneLine;
    FourScalars(es, lay, "", lay.close + ("]" + ""));
    AtomTexts(es);
    ArrayPieces();
  }

  /** The texts of the array test's four elements. */
  lemma AtomTexts(es: seq<Value>)
    requires es == [Value.Null, Value.Boolean(true), Value.Number("1.2"), Value.String("hello")]
    ensures Render(AtomToken(es[0])) == "null" && Render(AtomToken(es[1])) == "true"
    ensures Render(AtomToken(es[2])) == "1.2" && Render(AtomToken(es[3])) == "\"" + "hello" + "\""
  {
  }

  /** Four scalar elements, each followed by the separator. */
  lemma FourScalars(es: seq<Value>, lay: Layout, sep: string, rest: string)
    requires |es| == 4 && forall i :: 0 <= i < 4 ==> !es[i].Object? && !es[i].Array?
    ensures ElementsThen(es, lay, sep, rest)
         == sep + (Render(AtomToken(es[0])) + (lay.between + (Render(AtomToken(es[1])) + (lay.between
              + (Render(AtomToken(es[2])) + (lay.between + (Render(AtomToken(es[3])) + rest)))))))
  {
    ElementsCons(es[3], [], lay, lay.between, rest);
    assert [es[3]] + [] == es[3..];
    ElementsCons(es[2], es[3..], lay, lay.between, rest);
    assert [es[2]] + es[3..] == es[2..];
    ElementsCons(es[1], es[2..], lay, lay.between, rest);
    assert [es[1]] + es[2..] == es[1..];
    ElementsCons(es[0], es[1..], lay, sep, rest);
    assert [es[0]] + es[1..] == es;
  }

  /** `test_parse_array`. */
  lemma ParseArrayExample()
    ensures Parse(ArrayTestText)
         == Ok(Array([Value.Null, Value.Boolean(true), Value.Number("1.2"), Value.String("hello")]))
  {
    var es := [Value.Null, Value.Boolean(true), Value.Number("1.2"), Value.String("hello")];
    assert IsDigit("1.2"[0]);
    ArrayText(es);
    ParseRoundTrip(Array(es), OneLine, "");
    assert ArrayTestText + "" == ArrayTestText;
  }

  /** The text of a member with a scalar value, `sep` in front of it. */
  function MemberText(p: Pair, lay: Layout, sep: string): string
    requires !p.value.Object? && !p.value.Array?
  {
    sep + (Render(Token.String(p.key)) + (lay.beforeColon + (":" + (lay.colon + Render(AtomToken(p.value))))))
  }

  /** A member with a scalar value is its text, then the members after it. */
  lemma ScalarMember(p: Pair, more: seq<Pair>, lay: Layout, sep: string, rest: string)
    requires !p.value.Object? && !p.value.Array?
    ensures PairsThen([p] + more, lay, sep, rest) == MemberText(p, lay, sep) + PairsThen(more, lay, lay.between, rest)
  {
    assert ([p] + more)[1..] == more;
    var k := Render(Token.String(p.key));
    Nest6(sep, k, lay.beforeColon, ":", lay.colon, Render(AtomToken(p.value)), PairsThen(more, lay, lay.between, rest));
  }

  /** The members of the two object tests: no space before a colon and
      one after it. */
  predicate SpacedColon(lay: Layout)
  {
    lay.beforeColon == "" && lay.colon == " "
  }

  lemma SpacedMember(p: Pair, lay: Layout, sep: string)
    requires !p.value.Object? && !p.value.Array? && SpacedColon(lay)
    ensures MemberText(p, lay, sep) == sep + (("\"" + p.key + "\"") + ("" + (":" + (" " + Render(AtomToken(p.value))))))
  {
  }

  lemma NameText(p: Pair, lay: Layout, sep: string)
    requires p == Pair("name", Value.String("Bob")) && SpacedColon(lay) && sep == "\n            "
    ensures MemberText(p, lay, sep) == "\n            \"name\": \"Bob\""
  {
    SpacedMember(p, lay, sep);
    NamePiece();
  }

  lemma AgeText(p: Pair, lay: Layout, sep: string)
    requires p == Pair("age", Value.Number("24")) && SpacedColon(lay) && sep == ",\n            "
    ensures MemberText(p, lay, sep) == ",\n            \"age\": 24"
  {
    SpacedMember(p, lay, sep);
    AgePiece();
  }

  lemma HappyText(p: Pair, lay: Layout, sep: string)
    requires p == Pair("happy", Value.Boolean(true)) && SpacedColon(lay) && sep == ",\n            "
    ensures MemberText(p, lay, sep) == ",\n            \"happy\": true"
  {
    SpacedMember(p, lay, sep);
    HappyPiece();
  }

  lemma WifeText(p: Pair, lay: Layout, sep: string)
    requires p == Pair("wife", Value.Null) && SpacedColon(lay) && sep == ",\n            "
    ensures MemberText(p, lay, sep) == ",\n            \"wife\": null"
  {
    SpacedMember(p, lay, sep);
    WifePiece();
  }

  lemma BigText(p: Pair, lay: Layout, sep: string)
    requires p == Pair("size", Value.String("big")) && SpacedColon(lay) && sep == "\n                    "
    ensures MemberText(p, lay, sep) == "\n                    \"size\": \"big\""
  {
    SpacedMember(p, lay, sep);
    BigPiece();
  }

  lemma SmallishText(p: Pair, lay: Layout, sep: string)
    requires p == Pair("size", Value.String("smallish")) && SpacedColon(lay) && sep == "\n                    "
    ensures MemberText(p, lay, sep) == "\n                    \"size\": \"smallish\""
  {
    SpacedMember(p, lay, sep);
    SmallishPiece();
  }

  const ObjectTestValue := Object([
    Pair("name", Value.String("Bob")), Pair("age", Value.Number("24")),
    Pair("happy", Value.Boolean(true)), Pair("wife", Value.Null)])

  /** The layout of `test_parse_object`: each member on its own line
      indented by twelve spaces, a space after each colon, and the closing
      brace on its own line indented by eight. */
  const Indented := Layout("\n            ", ",\n            ", "\n        ", "", " ", None)

  /** `test_parse_object`: the four members, in order. */
  lemma ParseObjectExample()
    ensures Parse(ObjectTestText) == Ok(ObjectTestValue)
  {
    ObjectText(ObjectTestValue.pairs);
    ObjectExampleValid(ObjectTestValue);
    ParseRoundTrip(ObjectTestValue, Indented, "");
    assert ObjectTestText + "" == ObjectTestText;
  }

  /** The object test's text is the indented layout of its value. */
  lemma ObjectText(ps: seq<Pair>)
    requires ps == ObjectTestValue.pairs
    ensures Serialize(Object(ps), Indented) == ObjectTestText
  {
    var lay := Indented;
    var close := lay.close + ("}" + "");
    assert close == "\n        " + "}";
    ScalarHead(ps, lay, close);
    ScalarMember(ps[3], [], lay, lay.between, close);
    assert [ps[3]] + [] == ps[3..];
    WifeText(ps[3], lay, lay.between);
  }

  /** The three members with scalar values that open both object tests. */
  lemma ScalarHead(ps: seq<Pair>, lay: Layout, close: string)
    requires |ps| == 4 && ps[0] == Pair("name", Value.String("Bob")) && ps[1] == Pair("age", Value.Number("24"))
    requires ps[2] == Pair("happy", Value.Boolean(true))
    requires SpacedColon(lay) && lay.open == "\n            " && lay.between == ",\n            "
    ensures PairsThen(ps, lay, lay.open, close)
         == "\n            \"name\": \"Bob\"" + (",\n            \"age\": 24" + (",\n            \"happy\": true"
              + PairsThen(ps[3..], lay, lay.between, close)))
  {
    ScalarMember(ps[2], ps[3..], lay, lay.between, close);
    assert [ps[2]] + ps[3..] == ps[2..];
    ScalarMember(ps[1], ps[2..], lay, lay.between, close);
    assert [ps[1]] + ps[2..] == ps[1..];
    ScalarMember(ps[0], ps[1..], lay, lay.open, close);
    assert [ps[0]] + ps[1..] == ps;
    NameText(ps[0], lay, lay.open);
    AgeText(ps[1], lay, lay.between);
    HappyText(ps[2], lay, lay.between);
  }

  lemma ObjectExampleValid(v: Value)
    requires v == ObjectTestValue
    ensures ValidValue(v) && ValidLayout(Indented) && Closes("")
  {
    ScalarsValid(v.pairs[..3]);
    assert v.pairs == v.pairs[..3] + [v.pairs[3]];
    IndentedValid();
  }

  lemma IndentedValid()
    ensures ValidLayout(Indented)
  {
  }

  const NestedTestValue := Object([
    Pair("name", Value.String("Bob")), Pair("age", Value.Number("24")), Pair("happy", Value.Boolean(true)),
    Pair("cars", Array([Object([Pair("size", Value.String("big"))]), Object([Pair("size", Value.String("smallish"))])]))])

  /** The layout of `test_parse_nested`, depth by depth: the outer object
      indented by twelve, the array by sixteen, the objects inside it by
      twenty, each closing line four spaces less, and the trailing spaces
      after the last object and after the array. */
  const CarLayout := Layout("\n                    ", ",\n                    ", "\n                ", "", " ", None)
  const CarsLayout := Layout("\n                ", ",\n                ", "  \n            ", "", " ", Some(CarLayout))
  const NestedLayout := Layout("\n            ", ",\n            ", " \n        ", "", " ", Some(CarsLayout))

  /** `test_parse_nested`: the three scalar members, then the array of two
      objects. */
  lemma ParseNestedExample()
    ensures Parse(NestedTestText) == Ok(NestedTestValue)
  {
    NestedText(NestedTestValue);
    NestedExampleValid(NestedTestValue);
    ParseRoundTrip(NestedTestValue, NestedLayout, "");
    assert NestedTestText + "" == NestedTestText;
  }

  lemma NestedExampleValid(v: Value)
    requires v == NestedTestValue
    ensures ValidValue(v) && ValidLayout(NestedLayout) && Closes("")
  {
    CarsValid(v.pairs[3].value);
    ScalarsValid(v.pairs[..3]);
    assert v.pairs == v.pairs[..3] + [v.pairs[3]];
  }

  lemma ScalarsValid(ps: seq<Pair>)
    requires ps == [Pair("name", Value.String("Bob")), Pair("age", Value.Number("24")), Pair("happy", Value.Boolean(true))]
    ensures forall i :: 0 <= i < |ps| ==> '"' !in ps[i].key && ValidValue(ps[i].value)
  {
    assert IsDigit("24"[0]);
  }

  lemma CarsValid(cars: Value)
    requires cars == Array([Object([Pair("size", Value.String("big"))]), Object([Pair("size", Value.String("smallish"))])])
    ensures ValidValue(cars) && '"' !in "cars"
  {
    assert ValidValue(cars.elements[0]);
    assert ValidValue(cars.elements[1]);
  }

  /** An object with one member that has a scalar value. */
  lemma OneMemberObject(p: Pair, lay: Layout, rest: string)
    requires !p.value.Object? && !p.value.Array?
    ensures SerializeThen(Object([p]), lay, rest) == "{" + (MemberText(p, lay, lay.open) + (lay.close + ("}" + rest)))
  {
    ScalarMember(p, [], lay, lay.open, lay.close + ("}" + rest));
    assert [p] + [] == [p];
  }

  /** An array with two elements. */
  lemma TwoElements(a: Value, b: Value, lay: Layout, rest: string)
    ensures SerializeThen(Array([a, b]), lay, rest)
         == "[" + (lay.open + SerializeThen(a, Inner(lay), lay.between + SerializeThen(b, Inner(lay), lay.close + ("]" + rest))))
  {
    var closing := lay.close + ("]" + rest);
    ElementsCons(b, [], lay, lay.between, closing);
    assert [b] + [] == [a, b][1..];
    ElementsCons(a, [b], lay, lay.open, closing);
    assert [a] + [b] == [a, b];
  }

  /** The array member's text. */
  lemma CarsText(o1: Value, o2: Value, rest: string)
    requires o1 == Object([Pair("size", Value.String("big"))]) && o2 == Object([Pair("size", Value.String("smallish"))])
    ensures SerializeThen(Array([o1, o2]), CarsLayout, rest)
         == "[" + ("\n                " + ("{" + ("\n                    \"size\": \"big\"" + ("\n                " + ("}"
              + (",\n                " + ("{" + ("\n                    \"size\": \"smallish\"" + ("\n                " + ("}"
              + ("  \n            " + ("]" + rest))))))))))))
  {
    var tail := "  \n            " + ("]" + rest);
    TwoElements(o1, o2, CarsLayout, rest);
    OneMemberObject(o2.pairs[0], CarLayout, tail);
    assert [o2.pairs[0]] == o2.pairs;
    SmallishText(o2.pairs[0], CarLayout, CarLayout.open);
    var second := SerializeThen(o2, CarLayout, tail);
    OneMemberObject(o1.pairs[0], CarLayout, ",\n                " + second);
    assert [o1.pairs[0]] == o1.pairs;
    BigText(o1.pairs[0], CarLayout, CarLayout.open);
  }

  /** The nested test's text is its value laid out depth by depth. */
  lemma NestedText(v: Value)
    requires v == NestedTestValue
    ensures Serialize(v, NestedLayout) == NestedTestText
  {
    var lay := NestedLayout;
    var ps := v.pairs;
    var close := lay.close + ("}" + "");
    assert close == " \n        " + "}";
    var arr := ps[3].value;
    CarsText(arr.elements[0], arr.elements[1], close);
    assert arr == Array([arr.elements[0], arr.elements[1]]);
    var carsText := SerializeThen(arr, CarsLayout, close);
    assert Inner(lay) == CarsLayout;
    CarsMember(ps[3], lay, lay.between, carsText, close);
    ScalarHead(ps, lay, close);
  }

  /** The last member of the nested test: its key, then the array. */
  lemma CarsMember(p: Pair, lay: Layout, sep: string, carsText: string, close: string)
    requires p.key == "cars" && SpacedColon(lay) && sep == ",\n            "
    requires carsText == SerializeThen(p.value, Inner(lay), close)
    ensures PairsThen([p], lay, sep, close) == ",\n            \"cars\": " + carsText
  {
    LastMember(p, lay, sep, close);
    Nest5(sep, "\"" + p.key + "\"", "", ":", " ", carsText);
    CarsPiece();
  }

  /** A last member, whatever its value. */
  lemma LastMember(p: Pair, lay: Layout, sep: string, close: string)
    ensures PairsThen([p], lay, sep, close)
         == sep + (Render(Token.String(p.key)) + (lay.beforeColon + (":" + (lay.colon + SerializeThen(p.value, Inner(lay), close)))))
  {
    assert [p][1..] == [];
  }

  lemma Nest5(a: string, b: string, c: string, d: string, e: string, t: string)
    ensures a + (b + (c + (d + (e + t)))) == (a + (b + (c + (d + e)))) + t
  {
  }
}

/** The texts of the parser's unit tests, cut where the serializer puts
    its pieces, and the pieces of those texts. Kept apart from the parser so
    that comparing literal strings does not drag in its definitions. */
module JsonTestText {
  /** The text of `test_parse_array`. */
  const ArrayTestText := "[null, true, 1.2, \"hello\"]"

  /** The text of `test_parse_object`: the opening brace, one piece per
      member line, and the closing line. */
  const ObjectTestText :=
    "{" + (
    "\n            \"name\": \"Bob\"" + (
    ",\n            \"age\": 24" + (
    ",\n            \"happy\": true" + (
    ",\n            \"wife\": null" + (
    "\n        " + "}")))))

  /** The text of `test_parse_nested`, cut the same way; the closing lines
      of the array and of the outer object keep the trailing spaces the
      test has after `}` and `]`. */
  const NestedTestText :=
    "{" + (
    "\n            \"name\": \"Bob\"" + (
    ",\n            \"age\": 24" + (
    ",\n            \"happy\": true" + (
    ",\n            \"cars\": " + (
    "[" + (
    "\n                " + (
    "{" + (
    "\n                    \"size\": \"big\"" + (
    "\n                " + (
    "}" + (
    ",\n                " + (
    "{" + (
    "\n                    \"size\": \"smallish\"" + (
    "\n                " + (
    "}" + (
    "  \n            " + (
    "]" + (
    " \n        " + "}"))))))))))))))))))

  lemma ArrayPieces()
    ensures "[" + ("" + ("null" + (", " + ("true" + (", " + ("1.2" + (", " + (("\"" + "hello" + "\"") + ("" + ("]" + ""))))))))))
         == ArrayTestText
  {
  }

  lemma NamePiece()
    ensures "\n            " + (("\"" + "name" + "\"") + ("" + (":" + (" " + ("\"" + "Bob" + "\"")))))
         == "\n            \"name\": \"Bob\""
  {
  }

  lemma AgePiece()
    ensures ",\n            " + (("\"" + "age" + "\"") + ("" + (":" + (" " + "24")))) == ",\n            \"age\": 24"
  {
  }

  lemma HappyPiece()
    ensures ",\n            " + (("\"" + "happy" + "\"") + ("" + (":" + (" " + "true")))) == ",\n            \"happy\": true"
  {
  }

  lemma WifePiece()
    ensures ",\n            " + (("\"" + "wife" + "\"") + ("" + (":" + (" " + "null")))) == ",\n            \"wife\": null"
  {
  }

  lemma CarsPiece()
    ensures ",\n            " + (("\"" + "cars" + "\"") + ("" + (":" + " "))) == ",\n            \"cars\": "
  {
  }

  lemma BigPiece()
    ensures "\n                    " + (("\"" + "size" + "\"") + ("" + (":" + (" " + ("\"" + "big" + "\"")))))
         == "\n                    \"size\": \"big\""
  {
  }

  lemma SmallishPiece()
    ensures "\n                    " + (("\"" + "size" + "\"") + ("" + (":" + (" " + ("\"" + "smallish" + "\"")))))
         == "\n                    \"size\": \"smallish\""
  {
  }
}
