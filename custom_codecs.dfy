/**
 * The value types the codec tests store through user-supplied codecs: a 3-d
 * `point` and a `feature`, each printed as a small JSON-like object and parsed
 * back with std::string::find, substr and std::stoi, plus the `custom` type
 * that only has a codecs::to_string overload.
 */
module CustomTypes {
  import opened Wrappers
  import opened Text

  /** size_t arithmetic: std::string::npos is the largest size_t. */
  const SIZE_MODULUS: int := 0x1_0000_0000_0000_0000
  const NPOS: int := SIZE_MODULUS - 1

  const X_LABEL: string := "\"x\": "
  const Y_LABEL: string := "\"y\": "
  const Z_LABEL: string := "\"z\": "
  const TITLE_LABEL: string := "\"title\": \""
  const RATING_LABEL: string := "\"rating\": "

  datatype Point = Point(x: Int32, y: Int32, z: Int32)

  datatype Feature = Feature(title: string, rating: Int32)

  datatype Custom = Custom(counter: Int32)

  // ---------------------------------------------------------------------
  // Equality

  /** point::operator== */
  function PointEquals(a: Point, b: Point): (r: bool)
    ensures r <==> a == b
  {
    a.x == b.x && a.y == b.y && a.z == b.z
  }

  /** feature::operator== */
  function FeatureEquals(a: Feature, b: Feature): (r: bool)
    ensures r <==> a == b
  {
    a.title == b.title && a.rating == b.rating
  }

  // ---------------------------------------------------------------------
  // Printing

  /** point::to_string */
  function PointToString(p: Point): (s: string)
    ensures |s| > 1 + |X_LABEL| && s[..1 + |X_LABEL|] == "{" + X_LABEL && s[|s| - 1] == '}'
  {
    "{" + X_LABEL + IntToString(p.x) + ", " + Y_LABEL + IntToString(p.y) + ", " + Z_LABEL + IntToString(p.z) + "}"
  }

  /** feature::to_string */
  function FeatureToString(f: Feature): (s: string)
    ensures |s| > 1 + |TITLE_LABEL| + |f.title| && s[|s| - 1] == '}'
    ensures s[..1 + |TITLE_LABEL| + |f.title|] == "{" + TITLE_LABEL + f.title
  {
    "{" + TITLE_LABEL + f.title + "\", " + RATING_LABEL + IntToString(f.rating) + "}"
  }

  /** codecs::to_string(custom) */
  function CustomToString(c: Custom): (s: string)
    ensures |s| >= 9 && s[..7] == "custom[" && s[|s| - 1] == ']'
    ensures c.counter < 0 <==> s[7] == '-'
  {
    "custom[" + IntToString(c.counter) + "]"
  }

  // ---------------------------------------------------------------------
  // Parsing

  /**
   * find(tag) + |tag|: where the text of a field starts. When the tag is
   * missing, npos + |tag| wraps around in size_t to |tag| - 1.
   */
  function FieldStart(s: string, tag: string): (start: nat)
    requires 0 < |tag| < SIZE_MODULUS
    ensures FindFrom(s, tag, 0).None? ==> start == |tag| - 1
    ensures FindFrom(s, tag, 0).Some? ==> start == FindFrom(s, tag, 0).value + |tag| && start <= |s|
  {
    match FindFrom(s, tag, 0)
    case Some(i) => i + |tag|
    case None =>
      assert NPOS + |tag| == SIZE_MODULUS + (|tag| - 1);
      (NPOS + |tag|) % SIZE_MODULUS
  }

  /**
   * substr(start, find(term, start) - start): the text of a field up to its
   * terminator, or to the end of the string when the terminator is missing;
   * None is the out_of_range substr raises when the start lies past the end.
   */
  function FieldText(s: string, tag: string, term: char): (r: Option<string>)
    requires 0 < |tag| < SIZE_MODULUS
    ensures r.Some? <==> FieldStart(s, tag) <= |s|
    ensures r.Some? ==> term !in r.value
  {
    var start := FieldStart(s, tag);
    var end := FindFrom(s, [term], start);
    var r := SubstrUntil(s, start, end);
    assert r.Some? ==> term !in r.value by {
      if r.Some? {
        forall i | 0 <= i < |r.value|
          ensures r.value[i] != term
        {
          assert r.value[i] == s[start + i];
          assert !OccursAt(s, [term], start + i);
          assert s[start + i..start + i + 1] == [s[start + i]];
        }
      }
    }
    r
  }

  /** One integer field: the text up to its terminator, read by std::stoi. */
  function ReadIntField(s: string, tag: string, term: char): (r: Result<Int32, ParseError>)
    requires 0 < |tag| < SIZE_MODULUS
    ensures FieldText(s, tag, term).None? ==> r == Failure(ParseError.OutOfRange)
    ensures FieldText(s, tag, term).Some? ==> r == Stoi(FieldText(s, tag, term).value)
  {
    match FieldText(s, tag, term)
    case None => Failure(ParseError.OutOfRange)
    case Some(text) => Stoi(text)
  }

  /** point::from_string: x up to ',', y up to ',', z up to '}', each found by its label. */
  function PointFromString(s: string): (r: Result<Point, ParseError>)
    ensures r.Success? <==> ReadIntField(s, X_LABEL, ',').Success? && ReadIntField(s, Y_LABEL, ',').Success? && ReadIntField(s, Z_LABEL, '}').Success?
    ensures r.Success? ==> r.value.x == ReadIntField(s, X_LABEL, ',').value && r.value.y == ReadIntField(s, Y_LABEL, ',').value
                           && r.value.z == ReadIntField(s, Z_LABEL, '}').value
    ensures ReadIntField(s, X_LABEL, ',').Failure? ==> r == Failure(ReadIntField(s, X_LABEL, ',').error)
  {
    match ReadIntField(s, X_LABEL, ',')
    case Failure(e) => Failure(e)
    case Success(x) =>
      match ReadIntField(s, Y_LABEL, ',')
      case Failure(e) => Failure(e)
      case Success(y) =>
        match ReadIntField(s, Z_LABEL, '}')
        case Failure(e) => Failure(e)
        case Success(z) => Success(Point(x, y, z))
  }

  /** feature::from_string: the title up to the next '"', the rating up to '}'. */
  function FeatureFromString(s: string): (r: Result<Feature, ParseError>)
    ensures FieldText(s, TITLE_LABEL, '"').None? ==> r == Failure(ParseError.OutOfRange)
    ensures r.Success? <==> FieldText(s, TITLE_LABEL, '"').Some? && ReadIntField(s, RATING_LABEL, '}').Success?
    ensures r.Success? ==> r.value.title == FieldText(s, TITLE_LABEL, '"').value && r.value.rating == ReadIntField(s, RATING_LABEL, '}').value
  {
    match FieldText(s, TITLE_LABEL, '"')
    case None => Failure(ParseError.OutOfRange)
    case Some(title) =>
      match ReadIntField(s, RATING_LABEL, '}')
      case Failure(e) => Failure(e)
      case Success(rating) => Success(Feature(title, rating))
  }

  // ---------------------------------------------------------------------
  // Round trips

  /**
   * A field printed as the label + the integer + `term` is read back, provided
   * the label is found where it was printed: some character of the label
   * occurs neither in the text before it nor earlier in the label.
   */
  lemma ReadIntFieldOfPrinted(a: string, tag: string, t: nat, n: Int32, term: char, b: string)
    requires t < |tag| < SIZE_MODULUS && tag[t] !in a && tag[t] !in tag[..t]
    requires term != '-' && !IsDigit(term)
    ensures ReadIntField(a + tag + IntToString(n) + [term] + b, tag, term) == Success(n)
  {
    var digits := IntToString(n);
    var s := a + tag + digits + [term] + b;
    assert s == a + tag + (digits + [term] + b);
    FindAfterPrefix(a, tag, digits + [term] + b, t);
    var start := |a| + |tag|;
    assert FieldStart(s, tag) == start;
    NoOtherCharInIntToString(n, term);
    assert s == (a + tag + digits) + [term] + b;
    assert (a + tag + digits)[start..] == digits;
    FindCharAfter(a + tag + digits, term, b, start);
    assert s[start..start + |digits|] == digits;
    assert FieldText(s, tag, term) == Some(digits);
    StoiOfIntToString(n);
  }

  /** point::from_string reads back what point::to_string printed. */
  lemma PointRoundTrip(p: Point)
    ensures PointFromString(PointToString(p)) == Success(p)
  {
    PointReadsX(p);
    PointReadsY(p);
    PointReadsZ(p);
  }

  lemma PointReadsX(p: Point)
    ensures ReadIntField(PointToString(p), X_LABEL, ',') == Success(p.x)
  {
    var rest := " " + Y_LABEL + IntToString(p.y) + ", " + Z_LABEL + IntToString(p.z) + "}";
    assert PointToString(p) == "{" + X_LABEL + IntToString(p.x) + [','] + rest;
    assert X_LABEL[1] == 'x' && X_LABEL[..1] == "\"";
    ReadIntFieldOfPrinted("{", X_LABEL, 1, p.x, ',', rest);
  }

  lemma PointReadsY(p: Point)
    ensures ReadIntField(PointToString(p), Y_LABEL, ',') == Success(p.y)
  {
    var before := "{" + X_LABEL + IntToString(p.x) + ", ";
    var rest := " " + Z_LABEL + IntToString(p.z) + "}";
    assert PointToString(p) == before + Y_LABEL + IntToString(p.y) + [','] + rest;
    NoOtherCharInIntToString(p.x, 'y');
    assert Y_LABEL[1] == 'y' && Y_LABEL[..1] == "\"";
    ReadIntFieldOfPrinted(before, Y_LABEL, 1, p.y, ',', rest);
  }

  lemma PointReadsZ(p: Point)
    ensures ReadIntField(PointToString(p), Z_LABEL, '}') == Success(p.z)
  {
    var before := "{" + X_LABEL + IntToString(p.x) + ", " + Y_LABEL + IntToString(p.y) + ", ";
    assert PointToString(p) == before + Z_LABEL + IntToString(p.z) + ['}'] + "";
    NoOtherCharInIntToString(p.x, 'z');
    NoOtherCharInIntToString(p.y, 'z');
    assert Z_LABEL[1] == 'z' && Z_LABEL[..1] == "\"";
    ReadIntFieldOfPrinted(before, Z_LABEL, 1, p.z, '}', "");
  }

  /** The title is read up to the first '"' after its label. */
  lemma TitleOfPrinted(title: string, rest: string)
    requires '"' !in title
    ensures FieldText("{" + TITLE_LABEL + title + "\"" + rest, TITLE_LABEL, '"') == Some(title)
  {
    var s := "{" + TITLE_LABEL + title + "\"" + rest;
    assert s == "{" + TITLE_LABEL + (title + "\"" + rest);
    assert TITLE_LABEL[..0] == [];
    FindAfterPrefix("{", TITLE_LABEL, title + "\"" + rest, 0);
    var start := 1 + |TITLE_LABEL|;
    assert s == ("{" + TITLE_LABEL + title) + ['"'] + rest;
    assert ("{" + TITLE_LABEL + title)[start..] == title;
    FindCharAfter("{" + TITLE_LABEL + title, '"', rest, start);
    assert s[start..start + |title|] == title;
  }

  /**
   * In a printed feature the rating label is first found where it was
   * printed: every '"' before it belongs to the title's label or closes the
   * title, and none of those starts `"rating": `.
   */
  lemma RatingLabelFound(f: Feature)
    requires '"' !in f.title
    ensures FindFrom(FeatureToString(f), RATING_LABEL, 0) == Some(14 + |f.title|)
  {
    var s := FeatureToString(f);
    var k := 14 + |f.title|;
    assert s == ("{" + TITLE_LABEL + f.title + "\", ") + RATING_LABEL + (IntToString(f.rating) + "}");
    assert s[k..k + 10] == RATING_LABEL;
    forall j | 0 <= j < k
      ensures !OccursAt(s, RATING_LABEL, j)
    {
      NoRatingLabelAt(f, j);
    }
    FindFromFirst(s, RATING_LABEL, 0, k);
  }

  /** Before the printed rating label, some character of every window differs from the label. */
  lemma NoRatingLabelAt(f: Feature, j: nat)
    requires '"' !in f.title && j < 14 + |f.title|
    ensures !OccursAt(FeatureToString(f), RATING_LABEL, j)
  {
    var s := FeatureToString(f);
    var title := f.title;
    var head := "{" + TITLE_LABEL;
    var tail := "\", " + RATING_LABEL + IntToString(f.rating) + "}";
    assert s == head + title + tail;
    var i: nat;
    if j < 10 {
      // no 'r' in the opening text
      i := 1;
      assert s[j + 1] == head[j + 1];
      assert 'r' !in head;
    } else if j == 10 {
      // s[11..17] would spell "rating" and s[17] be a quote: the title would
      // be exactly those six letters, and then s[18] is ',' and not ':'.
      if |title| < 6 {
        i := 1 + |title|;
        assert s[11 + |title|] == tail[0] == '"';
        assert '"' !in RATING_LABEL[1..7];
        assert RATING_LABEL[1 + |title|] == RATING_LABEL[1..7][|title|];
      } else if |title| > 6 {
        i := 7;
        assert s[17] == title[6];
      } else {
        i := 8;
        assert s[18] == tail[1];
      }
    } else if j < 11 + |title| {
      i := 0;
      assert s[j] == title[j - 11];
    } else if j == 11 + |title| {
      i := 1;
      assert s[j + 1] == tail[1];
    } else {
      i := 0;
      assert s[j] == tail[j - 11 - |title|];
    }
    assert i < 10 && s[j + i] != RATING_LABEL[i];
    if j + 10 <= |s| {
      assert s[j..j + 10][i] == s[j + i];
    }
  }

  /** feature::from_string reads back what feature::to_string printed, when the title holds no '"'. */
  lemma FeatureRoundTrip(f: Feature)
    requires '"' !in f.title
    ensures FeatureFromString(FeatureToString(f)) == Success(f)
  {
    var digits := IntToString(f.rating);
    var s := FeatureToString(f);
    assert s == "{" + TITLE_LABEL + f.title + "\"" + (", " + RATING_LABEL + digits + "}");
    TitleOfPrinted(f.title, ", " + RATING_LABEL + digits + "}");
    RatingLabelFound(f);
    var start := 24 + |f.title|;
    assert FieldStart(s, RATING_LABEL) == start;
    NoOtherCharInIntToString(f.rating, '}');
    var front := "{" + TITLE_LABEL + f.title + "\", " + RATING_LABEL + digits;
    assert s == front + ['}'] + "";
    assert front[start..] == digits;
    FindCharAfter(front, '}', "", start);
    assert s[start..start + |digits|] == digits;
    assert FieldText(s, RATING_LABEL, '}') == Some(digits);
    StoiOfIntToString(f.rating);
  }

  /** The test's own object: custom{42} prints as "custom[42]". */
  lemma CustomExample()
    ensures CustomToString(Custom(42)) == "custom[42]"
  {
    assert NatToString(4) == "4";
    assert NatToString(42) == "42";
  }

  /** Different counters print differently, so the text identifies the object. */
  lemma CustomToStringInjective(a: Custom, b: Custom)
    requires CustomToString(a) == CustomToString(b)
    ensures a == b
  {
    var sa, sb := IntToString(a.counter), IntToString(b.counter);
    assert CustomToString(a)[7..|CustomToString(a)| - 1] == sa;
    assert CustomToString(b)[7..|CustomToString(b)| - 1] == sb;
    IntToStringInjective(a.counter, b.counter);
  }
}
