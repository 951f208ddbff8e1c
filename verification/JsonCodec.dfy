/** A text form of JSON values with the properties that `Json.Faithful` asks for, on every value. It is not the one
    that `encoding/json` uses. */
module JsonCodec {
  import opened Text
  import opened Json

  /** Every character as a number, then a full stop. */
  function PrintString(s: string): Bytes {
    if s == [] then "." else "," + (Decimal(s[0] as int) + (";" + PrintString(s[1..])))
  }

  function Print(v: Json): Bytes {
    match v
    case Null => "n"
    case Bool(b) => if b then "t" else "f"
    case Int(i) => "i" + (DecimalInt(i) + ";")
    case Fixed(i) => "x" + (DecimalInt(i) + ";")
    case Str(s) => "s" + PrintString(s)
    case Arr(elems) => "a" + PrintAll(elems)
    case Obj(fields) => "o" + PrintFields(fields)
  }

  function PrintAll(elems: seq<Json>): Bytes {
    if elems == [] then "." else "," + (Print(elems[0]) + PrintAll(elems[1..]))
  }

  function PrintField(field: (string, Json)): Bytes { PrintString(field.0) + Print(field.1) }

  function PrintFields(fields: seq<(string, Json)>): Bytes {
    if fields == [] then "." else "," + (PrintField(fields[0]) + PrintFields(fields[1..]))
  }

  // ---------- no printed text is the beginning of another ----------

  lemma SkipFirst(a: Bytes, b: Bytes, x: Bytes, y: Bytes)
    requires a != [] && b != [] && a + x == b + y
    ensures a[0] == b[0] && a[1..] + x == b[1..] + y
  {
    assert (a + x)[0] == a[0] && (b + y)[0] == b[0];
    assert (a + x)[1..] == a[1..] + x && (b + y)[1..] == b[1..] + y;
  }

  /** A comma, a first text and the rest, less the comma. */
  lemma Behind(first: Bytes, rest: Bytes, x: Bytes)
    ensures ("," + (first + rest))[1..] + x == first + (rest + x)
  {
  }

  lemma SameParts<T>(s: seq<T>, t: seq<T>)
    requires s != [] && t != [] && s[0] == t[0] && s[1..] == t[1..]
    ensures s == t
  {
    assert s == [s[0]] + s[1..] && t == [t[0]] + t[1..];
  }

  lemma NumbersUnique(i: int, j: int, x: Bytes, y: Bytes)
    requires DecimalInt(i) + ([';'] + x) == DecimalInt(j) + ([';'] + y)
    ensures i == j && x == y
  {
    DecimalIntChars(i);
    DecimalIntChars(j);
    UniqueSplit(DecimalInt(i), x, DecimalInt(j), y, ';');
    DecimalIntInjective(i, j);
  }

  lemma {:induction false} StringsUnique(s: string, t: string, x: Bytes, y: Bytes)
    requires PrintString(s) + x == PrintString(t) + y
    ensures s == t && x == y
  {
    SkipFirst(PrintString(s), PrintString(t), x, y);
    if s != [] {
      var a, b := PrintString(s[1..]) + x, PrintString(t[1..]) + y;
      Behind(DecimalInt(s[0] as int), ";" + PrintString(s[1..]), x);
      Behind(DecimalInt(t[0] as int), ";" + PrintString(t[1..]), y);
      Associate(";", PrintString(s[1..]), x);
      Associate(";", PrintString(t[1..]), y);
      NumbersUnique(s[0] as int, t[0] as int, a, b);
      StringsUnique(s[1..], t[1..], x, y);
      SameParts(s, t);
    } else {
      assert PrintString(s)[1..] + x == x && PrintString(t)[1..] + y == y;
    }
  }

  lemma ScalarsUnique(v: Json, w: Json, x: Bytes, y: Bytes)
    requires Print(v) + x == Print(w) + y && !v.Arr? && !v.Obj?
    ensures v == w && x == y
  {
    SkipFirst(Print(v), Print(w), x, y);
    match v {
      case Null => assert Print(v)[1..] + x == x && Print(w)[1..] + y == y;
      case Bool(b) => assert Print(v)[1..] + x == x && Print(w)[1..] + y == y;
      case Int(i) => NumberTextsUnique(i, w.i, x, y);
      case Fixed(i) => NumberTextsUnique(i, w.millionths, x, y);
      case Str(s) => StringsUnique(s, w.s, x, y);
    }
  }

  lemma NumberTextsUnique(i: int, j: int, x: Bytes, y: Bytes)
    requires DecimalInt(i) + ";" + x == DecimalInt(j) + ";" + y
    ensures i == j && x == y
  {
    assert DecimalInt(i) + ";" + x == DecimalInt(i) + ([';'] + x);
    assert DecimalInt(j) + ";" + y == DecimalInt(j) + ([';'] + y);
    NumbersUnique(i, j, x, y);
  }

  lemma {:induction false} ValuesUnique(v: Json, w: Json, x: Bytes, y: Bytes)
    requires Print(v) + x == Print(w) + y
    ensures v == w && x == y
    decreases v
  {
    SkipFirst(Print(v), Print(w), x, y);
    match v {
      case Arr(elems) => AllUnique(elems, w.elems, x, y);
      case Obj(fields) => FieldsUnique(fields, w.fields, x, y);
      case _ => ScalarsUnique(v, w, x, y);
    }
  }

  lemma {:induction false} AllUnique(s: seq<Json>, t: seq<Json>, x: Bytes, y: Bytes)
    requires PrintAll(s) + x == PrintAll(t) + y
    ensures s == t && x == y
    decreases s
  {
    SkipFirst(PrintAll(s), PrintAll(t), x, y);
    if s != [] {
      var a, b := PrintAll(s[1..]) + x, PrintAll(t[1..]) + y;
      Behind(Print(s[0]), PrintAll(s[1..]), x);
      Behind(Print(t[0]), PrintAll(t[1..]), y);
      ValuesUnique(s[0], t[0], a, b);
      AllUnique(s[1..], t[1..], x, y);
      SameParts(s, t);
    } else {
      assert PrintAll(s)[1..] + x == x && PrintAll(t)[1..] + y == y;
    }
  }

  lemma {:induction false} FieldUnique(f: (string, Json), g: (string, Json), x: Bytes, y: Bytes)
    requires PrintField(f) + x == PrintField(g) + y
    ensures f == g && x == y
    decreases f
  {
    Associate(PrintString(f.0), Print(f.1), x);
    Associate(PrintString(g.0), Print(g.1), y);
    StringsUnique(f.0, g.0, Print(f.1) + x, Print(g.1) + y);
    ValuesUnique(f.1, g.1, x, y);
  }

  lemma {:induction false} FieldsUnique(s: seq<(string, Json)>, t: seq<(string, Json)>, x: Bytes, y: Bytes)
    requires PrintFields(s) + x == PrintFields(t) + y
    ensures s == t && x == y
    decreases s
  {
    SkipFirst(PrintFields(s), PrintFields(t), x, y);
    if s != [] {
      var a, b := PrintFields(s[1..]) + x, PrintFields(t[1..]) + y;
      Behind(PrintField(s[0]), PrintFields(s[1..]), x);
      Behind(PrintField(t[0]), PrintFields(t[1..]), y);
      FieldUnique(s[0], t[0], a, b);
      FieldsUnique(s[1..], t[1..], x, y);
      SameParts(s, t);
    } else {
      assert PrintFields(s)[1..] + x == x && PrintFields(t)[1..] + y == y;
    }
  }

  // ---------- one clean line ----------

  predicate NoBreaks(text: Bytes) { '\n' !in text && '\r' !in text }

  lemma NoBreaksConcat(a: Bytes, b: Bytes)
    requires NoBreaks(a) && NoBreaks(b)
    ensures NoBreaks(a + b)
  {
  }

  lemma {:induction false} StringClean(s: string)
    ensures NoBreaks(PrintString(s))
  {
    if s != [] {
      DecimalValue(s[0] as int);
      StringClean(s[1..]);
      NoBreaksConcat(";", PrintString(s[1..]));
      NoBreaksConcat(Decimal(s[0] as int), ";" + PrintString(s[1..]));
    }
  }

  lemma {:induction false} ValueClean(v: Json)
    ensures NoBreaks(Print(v)) && Print(v) != []
    decreases v
  {
    match v {
      case Int(i) => DecimalIntChars(i);
      case Fixed(i) => DecimalIntChars(i);
      case Str(s) => StringClean(s);
      case Arr(elems) => AllClean(elems);
      case Obj(fields) => FieldsClean(fields);
      case _ =>
    }
  }

  lemma {:induction false} AllClean(elems: seq<Json>)
    ensures NoBreaks(PrintAll(elems))
    decreases elems
  {
    if elems != [] {
      ValueClean(elems[0]);
      AllClean(elems[1..]);
      NoBreaksConcat(Print(elems[0]), PrintAll(elems[1..]));
    }
  }

  lemma {:induction false} FieldClean(field: (string, Json))
    ensures NoBreaks(PrintField(field))
    decreases field
  {
    StringClean(field.0);
    ValueClean(field.1);
    NoBreaksConcat(PrintString(field.0), Print(field.1));
  }

  lemma {:induction false} FieldsClean(fields: seq<(string, Json)>)
    ensures NoBreaks(PrintFields(fields))
    decreases fields
  {
    if fields != [] {
      FieldClean(fields[0]);
      FieldsClean(fields[1..]);
      NoBreaksConcat(PrintField(fields[0]), PrintFields(fields[1..]));
    }
  }

  // ---------- the witness ----------

  predicate Spells(text: Bytes, v: Json) { text == Print(v) || text == Print(v) + NEWLINE }

  ghost function Parse(text: Bytes): Option<Json> {
    if exists v :: Spells(text, v) then
      var v :| Spells(text, v);
      Some(v)
    else None
  }

  lemma SpellsOne(text: Bytes, v: Json, w: Json)
    requires Spells(text, v) && Spells(text, w)
    ensures v == w
  {
    ValueClean(v);
    ValueClean(w);
    assert NEWLINE[0] == '\n';
    if text == Print(v) {
      assert '\n' !in text;
      assert text != Print(w) + NEWLINE by { assert (Print(w) + NEWLINE)[|Print(w)|] == '\n'; }
      assert Print(v) + [] == Print(w) + [];
      ValuesUnique(v, w, [], []);
    } else {
      assert text[|text| - 1] == '\n';
      ValuesUnique(v, w, NEWLINE, NEWLINE);
    }
  }

  lemma ParseSpelled(text: Bytes, v: Json)
    requires Spells(text, v)
    ensures Parse(text) == Some(v)
  {
    SpellsOne(text, Parse(text).value, v);
  }

  ghost predicate FaithfulOnAll(codec: Codec) { forall v: Json :: Faithful(codec, v) }

  lemma FaithfulCodecExists()
    ensures exists codec :: FaithfulOnAll(codec)
  {
    var codec := Codec(v => Print(v), text => Parse(text));
    forall v: Json ensures Faithful(codec, v) {
      ParseSpelled(Print(v), v);
      ParseSpelled(Print(v) + NEWLINE, v);
      ValueClean(v);
    }
    assert FaithfulOnAll(codec);
  }
}
