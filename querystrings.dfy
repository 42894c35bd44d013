/**
 * How a browser and the server read back the query part of a link: the
 * part after `?` and before any `#` is split on `&` into fields, each field
 * is split at its first `=` into a name and a value (a field without `=`
 * has the empty value, empty fields are skipped), both are decoded (`+` is
 * a space, `%XY` is the character with hexadecimal code XY) and a later
 * field of the same name wins over an earlier one. This is the reference
 * against which the query suffixes built for paginator links are judged,
 * together with the escaping those suffixes need to survive it.
 */
module QueryStrings {

  // ---------------------------------------------------------------------
  // Splitting

  /** The first position of `c` in `s`. */
  function IndexOf(s: string, c: char): (i: nat)
    requires c in s
    ensures i < |s| && s[i] == c
    ensures forall j :: 0 <= j < i ==> s[j] != c
  {
    if s[0] == c then 0 else 1 + IndexOf(s[1..], c)
  }

  /** `s` cut at every occurrence of `sep`; there is always at least one piece. */
  function SplitOn(s: string, sep: char): (parts: seq<string>)
    ensures |parts| >= 1
  {
    if s == [] then [""]
    else
      var rest := SplitOn(s[1..], sep);
      if s[0] == sep then [""] + rest else [[s[0]] + rest[0]] + rest[1..]
  }

  lemma {:induction false} SplitOnWithoutSeparator(s: string, sep: char)
    requires sep !in s
    ensures SplitOn(s, sep) == [s]
  {
    if s != [] {
      SplitOnWithoutSeparator(s[1..], sep);
      assert [s[0]] + s[1..] == s;
    }
  }

  /** Cutting at the first separator gives the piece before it, then the pieces of the rest. */
  lemma {:induction false} SplitOnFirstSeparator(x: string, sep: char, y: string)
    requires sep !in x
    ensures SplitOn(x + [sep] + y, sep) == [x] + SplitOn(y, sep)
  {
    if x == [] {
      assert x + [sep] + y == [sep] + y;
      assert ([sep] + y)[1..] == y;
    } else {
      assert (x + [sep] + y)[1..] == x[1..] + [sep] + y;
      SplitOnFirstSeparator(x[1..], sep, y);
      assert [x[0]] + x[1..] == x;
    }
  }

  /** The text before the first `#`: a fragment never reaches the server. */
  function BeforeFragment(s: string): (r: string)
    ensures r <= s && '#' !in r
    ensures '#' !in s ==> r == s
  {
    if '#' in s then s[..IndexOf(s, '#')] else s
  }

  // ---------------------------------------------------------------------
  // Decoding

  predicate IsHexDigit(c: char) {
    '0' <= c <= '9' || 'A' <= c <= 'F' || 'a' <= c <= 'f'
  }

  function HexValue(c: char): (v: nat)
    requires IsHexDigit(c)
    ensures v < 16
  {
    if '0' <= c <= '9' then c as int - '0' as int
    else if 'A' <= c <= 'F' then c as int - 'A' as int + 10
    else c as int - 'a' as int + 10
  }

  /** The upper-case hexadecimal digit for a value below 16. */
  function HexDigit(v: nat): (c: char)
    requires v < 16
    ensures IsHexDigit(c) && HexValue(c) == v
  {
    if v < 10 then ('0' as int + v) as char else ('A' as int + v - 10) as char
  }

  /**
   * Form decoding of one name or value. A `%` that is not followed by two
   * hexadecimal digits stands for itself. An escape stands for the single
   * character of that code.
   */
  function Decode(s: string): string
  {
    if s == [] then []
    else if s[0] == '+' then [' '] + Decode(s[1..])
    else if s[0] == '%' && |s| >= 3 && IsHexDigit(s[1]) && IsHexDigit(s[2]) then
      [(HexValue(s[1]) * 16 + HexValue(s[2])) as char] + Decode(s[3..])
    else [s[0]] + Decode(s[1..])
  }

  // ---------------------------------------------------------------------
  // Parsing

  /** A field cut at its first `=`; without `=` the whole field is the name. */
  function SplitField(f: string): (nv: (string, string))
    ensures '=' !in nv.0
    ensures '=' in f ==> f == nv.0 + "=" + nv.1
    ensures '=' !in f ==> nv == (f, "")
  {
    if '=' in f then
      var i := IndexOf(f, '=');
      assert f == f[..i] + "=" + f[i + 1..];
      (f[..i], f[i + 1..])
    else (f, "")
  }

  /** Adds the fields, left to right, to the parameters read so far. */
  function Collect(fields: seq<string>, acc: map<string, string>): map<string, string>
  {
    if fields == [] then acc
    else if fields[0] == "" then Collect(fields[1..], acc)
    else
      var nv := SplitField(fields[0]);
      Collect(fields[1..], acc[Decode(nv.0) := Decode(nv.1)])
  }

  /** The parameters a link suffix such as `?keyword=x&page=2` hands to the server. */
  function ParseQuery(href: string): map<string, string>
  {
    if |href| > 0 && href[0] == '?' then Collect(SplitOn(BeforeFragment(href[1..]), '&'), map[])
    else map[]
  }

  // ---------------------------------------------------------------------
  // Escaping

  /**
   * The characters that have a meaning of their own in a query: escapes,
   * spaces, separators (`;` separated fields too on older servers) and
   * fragments.
   */
  predicate IsReserved(c: char) {
    c == '%' || c == '+' || c == '&' || c == ';' || c == '#'
  }

  /** A value that the query reading above gives back unchanged. */
  predicate IsPlain(s: string) {
    forall i :: 0 <= i < |s| ==> !IsReserved(s[i])
  }

  function EscapeChar(c: char): (r: string)
    ensures !IsReserved(c) ==> r == [c]
    ensures IsReserved(c) ==> |r| == 3 && r[0] == '%'
  {
    if IsReserved(c) then ['%', HexDigit(c as int / 16), HexDigit(c as int % 16)] else [c]
  }

  /** Percent-escapes the reserved characters of a value and keeps the others. */
  function Escape(s: string): (r: string)
    ensures '&' !in r && ';' !in r && '#' !in r
    ensures IsPlain(s) ==> r == s
  {
    if s == [] then [] else EscapeChar(s[0]) + Escape(s[1..])
  }

  /** Decoding an escaped value gives the value back. */
  lemma {:induction false} DecodeEscape(s: string)
    ensures Decode(Escape(s)) == s
  {
    if s != [] {
      var c, rest := s[0], Escape(s[1..]);
      DecodeEscape(s[1..]);
      var e := EscapeChar(c) + rest;
      assert Escape(s) == e;
      if IsReserved(c) {
        assert e[0] == '%' && e[1] == HexDigit(c as int / 16) && e[2] == HexDigit(c as int % 16);
        assert e[3..] == rest;
        assert (HexValue(e[1]) * 16 + HexValue(e[2])) as char == c;
      } else {
        assert e[1..] == rest;
      }
      assert [c] + s[1..] == s;
    }
  }

  /** A plain value decodes to itself. */
  lemma {:induction false} DecodePlain(s: string)
    requires IsPlain(s)
    ensures Decode(s) == s
  {
    if s != [] {
      DecodePlain(s[1..]);
      assert [s[0]] + s[1..] == s;
    }
  }

  /** A field `name=value` with a plain `=`-free name reads back as that name and the decoded value. */
  lemma FieldOf(name: string, value: string)
    requires name != [] && '=' !in name && IsPlain(name)
    ensures name + "=" + value != ""
    ensures SplitField(name + "=" + value) == (name, value)
    ensures Decode(SplitField(name + "=" + value).0) == name
  {
    var f := name + "=" + value;
    assert f[|name|] == '=';
    var i := IndexOf(f, '=');
    assert i == |name|;
    assert f[..i] == name && f[i + 1..] == value;
    DecodePlain(name);
  }

  lemma PlainHasNoSeparator(s: string)
    requires IsPlain(s)
    ensures '&' !in s && '#' !in s
  {
  }

  /** A parameter name the reading above keeps as it is. */
  predicate IsSimpleName(name: string) {
    name != [] && '=' !in name && '#' !in name && IsPlain(name)
  }

  /** A query of one field reads back as that one parameter. */
  lemma ReadOneField(name: string, value: string)
    requires IsSimpleName(name) && '&' !in value && '#' !in value
    ensures ParseQuery("?" + name + "=" + value) == map[name := Decode(value)]
  {
    var f := name + "=" + value;
    assert ("?" + name + "=" + value)[1..] == f;
    assert BeforeFragment(f) == f;
    SplitOnWithoutSeparator(f, '&');
    FieldOf(name, value);
    assert Collect([f], map[]) == Collect([], map[name := Decode(value)]);
  }

  /** A query of two fields reads back as those two parameters, the second winning on a clash. */
  lemma ReadTwoFields(name1: string, value1: string, name2: string, value2: string)
    requires IsSimpleName(name1) && '&' !in value1 && '#' !in value1
    requires IsSimpleName(name2) && '&' !in value2 && '#' !in value2
    ensures ParseQuery("?" + name1 + "=" + value1 + "&" + name2 + "=" + value2)
         == map[name1 := Decode(value1)][name2 := Decode(value2)]
  {
    var f1, f2 := name1 + "=" + value1, name2 + "=" + value2;
    assert ("?" + name1 + "=" + value1 + "&" + name2 + "=" + value2)[1..] == f1 + ['&'] + f2;
    assert BeforeFragment(f1 + ['&'] + f2) == f1 + ['&'] + f2;
    SplitOnFirstSeparator(f1, '&', f2);
    SplitOnWithoutSeparator(f2, '&');
    FieldOf(name1, value1);
    FieldOf(name2, value2);
    var m1 := map[name1 := Decode(value1)];
    assert Collect([f1, f2], map[]) == Collect([f2], m1);
    assert Collect([f2], m1) == Collect([], m1[name2 := Decode(value2)]);
  }

  /** A field followed by a bare name reads back as the field's parameter and that name with the empty value. */
  lemma ReadFieldThenBareName(name1: string, value1: string, name2: string)
    requires IsSimpleName(name1) && '&' !in value1 && '#' !in value1
    requires IsSimpleName(name2) && '&' !in name2
    ensures ParseQuery("?" + name1 + "=" + value1 + "&" + name2) == map[name1 := Decode(value1)][name2 := ""]
  {
    var f1 := name1 + "=" + value1;
    assert ("?" + name1 + "=" + value1 + "&" + name2)[1..] == f1 + ['&'] + name2;
    assert BeforeFragment(f1 + ['&'] + name2) == f1 + ['&'] + name2;
    SplitOnFirstSeparator(f1, '&', name2);
    SplitOnWithoutSeparator(name2, '&');
    FieldOf(name1, value1);
    DecodePlain(name2);
    assert Decode("") == "";
    var m1 := map[name1 := Decode(value1)];
    assert Collect([f1, name2], map[]) == Collect([name2], m1);
    assert Collect([name2], m1) == Collect([], m1[name2 := ""]);
  }
}
