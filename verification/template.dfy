/**
 * The export file-name template: the part of Python's `str.format_map` the
 * template goes through, on string values.  A template is split into
 * literal text and replacement fields the way CPython's format-string
 * parser splits it; every field is looked up by name in a mapping and laid
 * out by its format spec the way `str.__format__` does.  Malformed
 * templates are the `ValueError`s the export loop falls back on.
 */
module Template {
  import opened Wrappers

  /**
   * A piece of a parsed template: literal text, or a replacement field with
   * its name, the conversion character after `!` and the format spec after
   * `:` (each absent when the field has none).
   */
  datatype Piece =
    | Lit(text: string)
    | Field(name: string, conversion: Option<char>, spec: Option<string>)

  predicate IsBrace(c: char) {
    c == '{' || c == '}'
  }

  predicate NoBraces(s: string) {
    forall k :: 0 <= k < |s| ==> !IsBrace(s[k])
  }

  /** The first position from `k` on whose character satisfies `stop`, or `|t|` when there is none. */
  function Until(t: string, k: nat, stop: char -> bool): (r: nat)
    requires k <= |t|
    ensures k <= r <= |t|
    ensures forall m :: k <= m < r ==> !stop(t[m])
    ensures r < |t| ==> stop(t[r])
    decreases |t| - k
  {
    if k == |t| || stop(t[k]) then k else Until(t, k + 1, stop)
  }

  /** Position of the first brace of `t`, or `|t|` when there is none. */
  function FirstBrace(t: string): (i: nat)
    ensures i <= |t| && NoBraces(t[..i])
    ensures i < |t| ==> IsBrace(t[i])
  {
    var i := Until(t, 0, IsBrace);
    assert forall m :: 0 <= m < i ==> t[..i][m] == t[m];
    i
  }

  /**
   * The `}` that closes a format spec opened before position `k` with
   * `depth` braces still open: each `{` opens one more, each `}` closes one.
   */
  function MatchClose(t: string, k: nat, depth: nat): (r: Option<nat>)
    requires k <= |t| && depth >= 1
    ensures r.Some? ==> k <= r.value < |t| && t[r.value] == '}'
    decreases |t| - k
  {
    if k == |t| then None
    else if t[k] == '{' then MatchClose(t, k + 1, depth + 1)
    else if t[k] == '}' then (if depth == 1 then Some(k) else MatchClose(t, k + 1, depth - 1))
    else MatchClose(t, k + 1, depth)
  }

  /** The characters that end a field name. */
  predicate IsNameEnd(c: char) {
    c == '}' || c == ':' || c == '!'
  }

  /**
   * The end of a field name that starts at `k`: the first `}`, `:` or `!`,
   * where a `[` skips everything up to the next `]`.  A `{` in the name,
   * and running out of text, are `ValueError`s.
   */
  function NameScan(t: string, k: nat): (r: Result<nat, string>)
    requires k <= |t|
    ensures r.Ok? ==> k <= r.value < |t| && IsNameEnd(t[r.value])
    decreases |t| - k
  {
    if k == |t| then Err("expected '}' before end of string")
    else if t[k] == '{' then Err("unexpected '{' in field name")
    else if IsNameEnd(t[k]) then Ok(k)
    else if t[k] == '[' then NameScan(t, Until(t, k + 1, c => c == ']'))
    else NameScan(t, k + 1)
  }

  /**
   * The field whose `{` is just before `k`, read the way CPython's field
   * parser reads it: the name; after `!` one conversion character, which
   * must be followed by `}` or `:`; after `:` a format spec running to the
   * `}` that balances the field's `{`.  Returns the field and the position
   * just past its closing `}`.
   */
  function ParseField(t: string, k: nat): (r: Result<(Piece, nat), string>)
    requires k <= |t|
    ensures r.Ok? ==> r.value.0.Field? && k < r.value.1 <= |t| && t[r.value.1 - 1] == '}'
  {
    match NameScan(t, k)
    case Err(e) => Err(e)
    case Ok(n) => FieldAfterName(t, t[k..n], n)
  }

  /** The rest of a field whose name `name` ends at `n`, on a `}`, `:` or `!`. */
  function FieldAfterName(t: string, name: string, n: nat): (r: Result<(Piece, nat), string>)
    requires n < |t| && IsNameEnd(t[n])
    ensures r.Ok? ==> r.value.0.Field? && n < r.value.1 <= |t| && t[r.value.1 - 1] == '}'
  {
    if t[n] == '}' then Ok((Field(name, None, None), n + 1))
    else if t[n] == ':' then SpecTo(t, n + 1, name, None)
    else if n + 1 == |t| then FieldError("end of string while looking for conversion specifier")
    else if n + 2 == |t| then SpecTo(t, n + 2, name, Some(t[n + 1]))
    else if t[n + 2] == '}' then Ok((Field(name, Some(t[n + 1]), None), n + 3))
    else if t[n + 2] != ':' then FieldError("expected ':' after conversion specifier")
    else SpecTo(t, n + 3, name, Some(t[n + 1]))
  }

  function FieldError(message: string): Result<(Piece, nat), string> {
    Err(message)
  }

  /** A field whose format spec starts at `s` and runs to the `}` that balances the field. */
  function SpecTo(t: string, s: nat, name: string, conversion: Option<char>): (r: Result<(Piece, nat), string>)
    requires s <= |t|
    ensures r.Ok? ==>
      s < r.value.1 <= |t| && t[r.value.1 - 1] == '}'
      && r.value.0 == Field(name, conversion, Some(t[s..r.value.1 - 1]))
    ensures r.Err? <==> MatchClose(t, s, 1).None?
  {
    match MatchClose(t, s, 1)
    case None => Err("unmatched '{' in format spec")
    case Some(j) => Ok((Field(name, conversion, Some(t[s..j])), j + 1))
  }

  /**
   * The pieces of a template, as CPython's format-string iterator yields
   * them: text up to the next brace; `{{` and `}}` as a brace ending the
   * literal; a `{` opening a field.  A lone `}`, a `{` at the very end and a
   * malformed field are `ValueError`s.
   */
  function Parse(t: string): (r: Result<seq<Piece>, string>)
    decreases |t|, 1
  {
    if |t| == 0 then Ok([]) else ParseAt(t, FirstBrace(t))
  }

  /** The pieces of a non-empty template whose first brace is at `i` (`|t|` when there is none). */
  function ParseAt(t: string, i: nat): (r: Result<seq<Piece>, string>)
    requires i <= |t|
    decreases |t|, 0
  {
    if i == |t| then Ok([Lit(t)])
    else if t[i] == '}' then
      if i + 1 < |t| && t[i + 1] == '}' then Prepend(Lit(t[..i + 1]), Parse(t[i + 2..]))
      else Err("Single '}' encountered in format string")
    else if i + 1 == |t| then Err("Single '{' encountered in format string")
    else if t[i + 1] == '{' then Prepend(Lit(t[..i + 1]), Parse(t[i + 2..]))
    else
      match ParseField(t, i + 1)
      case Err(e) => Err(e)
      case Ok((p, e)) => Prepend(Lit(t[..i]), Prepend(p, Parse(t[e..])))
  }

  /** One piece in front of the pieces parsed after it; an error passes through. */
  function Prepend(p: Piece, r: Result<seq<Piece>, string>): Result<seq<Piece>, string> {
    match r
    case Ok(rest) => Ok([p] + rest)
    case Err(e) => Err(e)
  }

  /** Literal text written back into a template: every brace doubled. */
  function Escape(s: string): (r: string)
    ensures NoBraces(s) ==> r == s
  {
    if |s| == 0 then []
    else (if IsBrace(s[0]) then [s[0], s[0]] else [s[0]]) + Escape(s[1..])
  }

  function ConversionText(c: Option<char>): string {
    if c.Some? then ['!', c.value] else ""
  }

  function SpecText(s: Option<string>): string {
    if s.Some? then ":" + s.value else ""
  }

  /** One piece written back as template text. */
  function PieceText(p: Piece): string {
    match p
    case Lit(s) => Escape(s)
    case Field(n, c, s) => "{" + n + ConversionText(c) + SpecText(s) + "}"
  }

  /** Pieces written back as a template. */
  function Unparse(ps: seq<Piece>): string {
    if |ps| == 0 then [] else PieceText(ps[0]) + Unparse(ps[1..])
  }

  lemma UnparseCons(p: Piece, rest: seq<Piece>)
    ensures Unparse([p] + rest) == PieceText(p) + Unparse(rest)
  {
    assert ([p] + rest)[1..] == rest;
  }

  lemma EscapeAppend(a: string, b: string)
    ensures Escape(a + b) == Escape(a) + Escape(b)
  {
    if |a| > 0 {
      assert (a + b)[1..] == a[1..] + b;
    } else {
      assert a + b == b;
    }
  }

  /** The escape case: a doubled brace is one brace of literal text. */
  lemma ParseEscapeStep(t: string, i: nat)
    requires i == FirstBrace(t) && i + 1 < |t| && t[i] == t[i + 1]
    ensures Parse(t) == Prepend(Lit(t[..i + 1]), Parse(t[i + 2..]))
  {
    assert Parse(t) == ParseAt(t, i);
    ParseAtEscape(t, i);
  }

  lemma ParseAtEscape(t: string, i: nat)
    requires i + 1 < |t| && IsBrace(t[i]) && t[i] == t[i + 1]
    ensures ParseAt(t, i) == Prepend(Lit(t[..i + 1]), Parse(t[i + 2..]))
  {
  }

  lemma UnparseEscapeStep(t: string, i: nat, rest: seq<Piece>)
    requires i + 1 < |t| && NoBraces(t[..i]) && IsBrace(t[i]) && t[i] == t[i + 1]
    requires Unparse(rest) == t[i + 2..]
    ensures Unparse([Lit(t[..i + 1])] + rest) == t
  {
    UnparseCons(Lit(t[..i + 1]), rest);
    EscapeDoubled(t, i);
    SplitPair(t, i);
  }

  /** Any text is its part before `i`, the two characters at `i`, and the rest. */
  lemma SplitPair(t: string, i: nat)
    requires i + 1 < |t|
    ensures t == t[..i] + [t[i], t[i + 1]] + t[i + 2..]
  {
    assert t[..i + 2] == t[..i] + [t[i], t[i + 1]];
    assert t == t[..i + 2] + t[i + 2..];
  }

  /** Text without braces followed by one brace escapes to the text and the brace doubled. */
  lemma EscapeDoubled(t: string, i: nat)
    requires i < |t| && NoBraces(t[..i]) && IsBrace(t[i])
    ensures Escape(t[..i + 1]) == t[..i] + [t[i], t[i]]
  {
    EscapeAppend(t[..i], [t[i]]);
    assert t[..i + 1] == t[..i] + [t[i]];
    assert Escape([t[i]]) == [t[i], t[i]];
  }

  /** The field case: literal text, then the field, then the rest of the template. */
  lemma ParseFieldStep(t: string, i: nat, p: Piece, e: nat)
    requires i == FirstBrace(t) && i + 1 < |t| && t[i] == '{' && t[i + 1] != '{'
    requires ParseField(t, i + 1) == Ok((p, e))
    ensures Parse(t) == Prepend(Lit(t[..i]), Prepend(p, Parse(t[e..])))
  {
    assert Parse(t) == ParseAt(t, i);
  }

  /** A parsed field written back is exactly the template text from its `{` to its `}`. */
  lemma ParseFieldText(t: string, k: nat)
    requires 1 <= k <= |t| && t[k - 1] == '{' && ParseField(t, k).Ok?
    ensures PieceText(ParseField(t, k).value.0) == t[k - 1..ParseField(t, k).value.1]
  {
    var n := NameScan(t, k).value;
    FieldAfterNameText(t, k, n);
  }

  lemma FieldAfterNameText(t: string, k: nat, n: nat)
    requires 1 <= k <= n < |t| && t[k - 1] == '{' && IsNameEnd(t[n])
    requires FieldAfterName(t, t[k..n], n).Ok?
    ensures PieceText(FieldAfterName(t, t[k..n], n).value.0) == t[k - 1..FieldAfterName(t, t[k..n], n).value.1]
  {
    var (p, e) := FieldAfterName(t, t[k..n], n).value;
    TailText(t, t[k..n], n);
    FieldText(t, k, n, e, p);
  }

  /** What follows a field's name, written back, is the template text up to the field's `}`. */
  lemma TailText(t: string, name: string, n: nat)
    requires n < |t| && IsNameEnd(t[n]) && FieldAfterName(t, name, n).Ok?
    ensures var (p, e) := FieldAfterName(t, name, n).value;
      p.name == name && t[n..e] == ConversionText(p.conversion) + SpecText(p.spec) + "}"
  {
    if t[n] == '}' {
      assert t[n..n + 1] == "}";
    } else if t[n] == ':' {
      TailSpecText(t, name, n, n + 1, None);
    } else if t[n + 2] == '}' {
      assert t[n..n + 3] == ['!', t[n + 1]] + "}";
    } else {
      TailSpecText(t, name, n, n + 3, Some(t[n + 1]));
    }
  }

  /** The text after a name, for a field whose spec starts at `s`. */
  lemma TailSpecText(t: string, name: string, n: nat, s: nat, c: Option<char>)
    requires n < s <= |t| && t[n..s] == ConversionText(c) + ":" && SpecTo(t, s, name, c).Ok?
    ensures var (p, e) := SpecTo(t, s, name, c).value;
      p.name == name && t[n..e] == ConversionText(p.conversion) + SpecText(p.spec) + "}"
  {
    var (p, e) := SpecTo(t, s, name, c).value;
    SpecFieldText(t, n, s, e, name, c);
  }

  /** A field is its `{`, its name, and the text after the name. */
  lemma FieldText(t: string, k: nat, n: nat, e: nat, p: Piece)
    requires 1 <= k <= n < e <= |t| && t[k - 1] == '{' && p.Field? && p.name == t[k..n]
    requires t[n..e] == ConversionText(p.conversion) + SpecText(p.spec) + "}"
    ensures PieceText(p) == t[k - 1..e]
  {
    var after := ConversionText(p.conversion) + SpecText(p.spec);
    assert t[k - 1..n] == "{" + p.name;
    Slices(t, k - 1, n, e);
    assert PieceText(p) == "{" + p.name + after + "}";
    Assoc3("{" + p.name, after, "}");
  }

  lemma Assoc3(a: string, b: string, c: string)
    ensures a + (b + c) == a + b + c
  {
  }

  /** The text after a name, for a field with a spec from `s` to the `}` at `e - 1`. */
  lemma SpecFieldText(t: string, n: nat, s: nat, e: nat, name: string, c: Option<char>)
    requires n < s < e <= |t| && t[e - 1] == '}'
    requires t[n..s] == ConversionText(c) + ":"
    ensures t[n..e] == ConversionText(c) + SpecText(Some(t[s..e - 1])) + "}"
  {
    Slices(t, n, s, e);
    Slices(t, s, e - 1, e);
    assert t[e - 1..e] == "}";
    assert SpecText(Some(t[s..e - 1])) == ":" + t[s..e - 1];
  }

  /** The text from `n` to the `}` at `e - 1`, around a spec starting at `s`. */
  lemma SpecSlice(t: string, n: nat, s: nat, e: nat)
    requires n < s < e <= |t| && t[e - 1] == '}'
    ensures t[n..e] == t[n..s] + t[s..e - 1] + "}"
  {
    Slices(t, n, s, e);
    Slices(t, s, e - 1, e);
  }

  /** A slice is its two halves. */
  lemma Slices(t: string, a: nat, b: nat, c: nat)
    requires a <= b <= c <= |t|
    ensures t[a..c] == t[a..b] + t[b..c]
  {
  }

  lemma UnparseFieldStep(t: string, i: nat, p: Piece, e: nat, rest: seq<Piece>)
    requires i < e <= |t| && NoBraces(t[..i]) && PieceText(p) == t[i..e]
    requires Unparse(rest) == t[e..]
    ensures Unparse([Lit(t[..i])] + ([p] + rest)) == t
  {
    UnparseCons(p, rest);
    UnparseCons(Lit(t[..i]), [p] + rest);
    assert PieceText(Lit(t[..i])) == t[..i];
    assert Unparse([p] + rest) == t[i..e] + t[e..] == t[i..];
    assert t == t[..i] + t[i..];
  }

  /** Parsing loses nothing: the pieces written back are the template itself. */
  lemma {:induction false} ParseUnparse(t: string)
    requires Parse(t).Ok?
    ensures Unparse(Parse(t).value) == t
    decreases |t|
  {
    if |t| > 0 {
      var i := FirstBrace(t);
      if i == |t| {
        assert t[..i] == t;
        assert Parse(t).value == [Lit(t)];
        UnparseCons(Lit(t), []);
      } else if i + 1 < |t| && t[i] == t[i + 1] {
        ParseEscapeStep(t, i);
        ParseUnparse(t[i + 2..]);
        UnparseEscapeStep(t, i, Parse(t[i + 2..]).value);
      } else {
        assert Parse(t) == ParseAt(t, i);
        var (p, e) := ParseField(t, i + 1).value;
        ParseFieldStep(t, i, p, e);
        ParseFieldText(t, i + 1);
        ParseUnparse(t[e..]);
        UnparseFieldStep(t, i, p, e, Parse(t[e..]).value);
      }
    }
  }

  /** A template without braces is one piece of literal text. */
  lemma ParsePlain(t: string)
    requires NoBraces(t) && |t| > 0
    ensures Parse(t) == Ok([Lit(t)])
  {
    assert FirstBrace(t) == |t|;
  }

  // ── Format specs ──────────────────────────────────────────────────────────

  /**
   * A standard format spec as `str.__format__` reads it:
   * `[[fill]align][sign][z][#][0][width][,|_][.precision][type]`.
   */
  datatype FormatSpec = FormatSpec(
    fill: char,
    align: char,
    sign: Option<char>,
    noNegZero: bool,
    alternate: bool,
    width: Option<nat>,
    separator: Option<char>,
    precision: Option<nat>,
    kind: char)

  predicate IsAlign(c: char) {
    c == '<' || c == '>' || c == '=' || c == '^'
  }

  predicate IsSign(c: char) {
    c == '+' || c == '-' || c == ' '
  }

  predicate IsDigit(c: char) {
    '0' <= c <= '9'
  }

  predicate AllDigits(s: string) {
    forall k :: 0 <= k < |s| ==> IsDigit(s[k])
  }

  /** The largest value of CPython's `Py_ssize_t`. */
  const SsizeMax: nat := 0x7fff_ffff_ffff_ffff

  /** The value of a run of decimal digits. */
  function DigitsValue(d: string): nat
    requires AllDigits(d)
  {
    if |d| == 0 then 0 else 10 * DigitsValue(d[..|d| - 1]) + (d[|d| - 1] as int - '0' as int)
  }

  /**
   * `get_integer`: the decimal digits from `p` on, as their value (absent
   * when there are none) and the position after them.  A value past
   * `Py_ssize_t` is a `ValueError`.
   */
  function Integer(s: string, p: nat): (r: Result<(Option<nat>, nat), string>)
    requires p <= |s|
    ensures r.Ok? ==> p <= r.value.1 <= |s| && (r.value.0.None? <==> r.value.1 == p)
    ensures r.Ok? ==> AllDigits(s[p..r.value.1]) && (r.value.1 < |s| ==> !IsDigit(s[r.value.1]))
    ensures r.Ok? && r.value.0.Some? ==> r.value.0.value == DigitsValue(s[p..r.value.1]) <= SsizeMax
  {
    var q := Until(s, p, c => !IsDigit(c));
    assert forall m :: 0 <= m < q - p ==> s[p..q][m] == s[p + m];
    var v := DigitsValue(s[p..q]);
    if v > SsizeMax then Err("Too many decimal digits in format string")
    else if q == p then Ok((None, p))
    else Ok((Some(v), q))
  }

  /** The precision after a `.`, which must have at least one digit. */
  function Precision(s: string, p: nat): (r: Result<(Option<nat>, nat), string>)
    requires p <= |s|
    ensures r.Ok? ==> p <= r.value.1 <= |s|
    ensures r.Ok? && r.value.0.None? ==> r.value.1 == p
  {
    if p < |s| && s[p] == '.' then
      var d :- Integer(s, p + 1);
      if d.0.None? then Err("Format specifier missing precision") else Ok(d)
    else Ok((None, p))
  }

  /** The presentation types a thousands separator may go with. */
  predicate SeparatorAllowed(sep: char, kind: char) {
    kind in {'d', 'e', 'f', 'g', 'E', 'G', '%', 'F', '\0'}
    || (sep == '_' && kind in {'b', 'o', 'x', 'X'})
  }

  /**
   * `parse_internal_render_format_spec` for a string: an optional fill and
   * align (the fill only when the second character is an align), a sign,
   * `z`, `#`, a `0` that sets the fill when none was given, the width, one
   * thousands separator, the precision, and at most one more character, the
   * type (`s` by default).
   */
  function ParseSpec(s: string): (r: Result<FormatSpec, string>)
    ensures r.Ok? && |s| >= 2 && IsAlign(s[1]) ==> r.value.fill == s[0] && r.value.align == s[1]
    ensures r.Ok? && !(|s| >= 2 && IsAlign(s[1])) && !(|s| >= 1 && IsAlign(s[0])) ==> r.value.align == '<'
  {
    var (fill, align, fillGiven, p0) :=
      if |s| >= 2 && IsAlign(s[1]) then (s[0], s[1], true, 2)
      else if |s| >= 1 && IsAlign(s[0]) then (' ', s[0], false, 1)
      else (' ', '<', false, 0);
    var (sign, p1) := if p0 < |s| && IsSign(s[p0]) then (Some(s[p0]), p0 + 1) else (None, p0);
    var (z, p2) := if p1 < |s| && s[p1] == 'z' then (true, p1 + 1) else (false, p1);
    var (alternate, p3) := if p2 < |s| && s[p2] == '#' then (true, p2 + 1) else (false, p2);
    var (fill', p4) := if !fillGiven && p3 < |s| && s[p3] == '0' then ('0', p3 + 1) else (fill, p3);
    var w :- Integer(s, p4);
    var (width, p5) := w;
    var (comma, p6) := if p5 < |s| && s[p5] == ',' then (Some(','), p5 + 1) else (None, p5);
    if p6 < |s| && s[p6] == '_' && comma.Some? then Err("Cannot specify both ',' and '_'.")
    else
      var (sep, p7) := if p6 < |s| && s[p6] == '_' then (Some('_'), p6 + 1) else (comma, p6);
      if p7 < |s| && s[p7] == ',' && sep == Some('_') then Err("Cannot specify both ',' and '_'.")
      else
        var pr :- Precision(s, p7);
        var (precision, p8) := pr;
        if |s| - p8 > 1 then Err("Invalid format specifier '" + s + "' for object of type 'str'")
        else
          var kind := if |s| - p8 == 1 then s[p8] else 's';
          if sep.Some? && !SeparatorAllowed(sep.value, kind) then
            Err("Cannot specify '" + [sep.value] + "' with '" + [kind] + "'.")
          else Ok(FormatSpec(fill', align, sign, z, alternate, width, sep, precision, kind))
  }

  function Repeat(c: char, n: nat): (r: string)
    ensures |r| == n && forall k :: 0 <= k < n ==> r[k] == c
  {
    seq(n, _ => c)
  }

  /** How much of the value is shown: all of it, or the first `precision` characters. */
  function Shown(v: string, precision: Option<nat>): (len: nat)
    ensures len <= |v|
    ensures precision.Some? ==> len <= precision.value
    ensures len == |v| || (precision.Some? && len == precision.value)
  {
    if precision.Some? && precision.value < |v| then precision.value else |v|
  }

  /** The fill before the value out of `gap` fill characters: all, half (rounded down) or none. */
  function LeftFill(align: char, gap: nat): (l: nat)
    ensures l <= gap
  {
    if align == '>' then gap else if align == '^' then gap / 2 else 0
  }

  /**
   * The value laid out by a spec: cut to the precision, then filled out to
   * the width, the fill going after the value (`<`), before it (`>`) or
   * around it with the odd one after (`^`).
   */
  function Layout(v: string, f: FormatSpec): (r: string)
    ensures var len := Shown(v, f.precision);
      |r| == if f.width.Some? && f.width.value > len then f.width.value else len
    ensures var len := Shown(v, f.precision); var left := LeftFill(f.align, |r| - len);
      r[left..left + len] == v[..len]
      && (forall k :: 0 <= k < left ==> r[k] == f.fill)
      && (forall k :: left + len <= k < |r| ==> r[k] == f.fill)
  {
    var len := Shown(v, f.precision);
    var total := if f.width.Some? && f.width.value > len then f.width.value else len;
    var left := LeftFill(f.align, total - len);
    var r := Repeat(f.fill, left) + v[..len] + Repeat(f.fill, total - len - left);
    assert r[left..left + len] == v[..len];
    r
  }

  /** The error for a presentation type strings do not have. */
  function UnknownCode(kind: char): string {
    "Unknown format code '" + [kind] + "' for object of type 'str'"
  }

  /**
   * `format(v, spec)` for a string `v`: an empty spec gives `v`; otherwise
   * the spec must parse, have type `s`, and carry no sign, `z`, `#` or `=`
   * alignment, and the value is laid out by it.
   */
  function FormatStr(v: string, spec: string): (r: Result<string, string>)
    ensures spec == "" ==> r == Ok(v)
    ensures spec != "" && ParseSpec(spec).Err? ==> r.Err?
    ensures spec != "" && r.Ok? ==>
      var f := ParseSpec(spec).value;
      f.kind == 's' && f.sign.None? && !f.noNegZero && !f.alternate && f.align != '=' && r.value == Layout(v, f)
  {
    if spec == "" then Ok(v)
    else
      var f :- ParseSpec(spec);
      if f.kind != 's' then Err(UnknownCode(f.kind))
      else if f.sign == Some(' ') then Err("Space not allowed in string format specifier")
      else if f.sign.Some? then Err("Sign not allowed in string format specifier")
      else if f.noNegZero then Err("Negative zero coercion (z) not allowed in string format specifier")
      else if f.alternate then Err("Alternate form (#) not allowed in string format specifier")
      else if f.align == '=' then Err("'=' alignment not allowed in string format specifier")
      else Ok(Layout(v, f))
  }

  /** A spec of one character that is no other part of a spec is its type: anything but `s` fails. */
  lemma FormatStrTypeOnly(v: string, c: char)
    requires !IsAlign(c) && !IsSign(c) && !IsDigit(c) && c !in {'z', '#', ',', '_', '.'}
    ensures c == 's' ==> FormatStr(v, [c]) == Ok(v)
    ensures c != 's' ==> FormatStr(v, [c]) == Err(UnknownCode(c))
  {
    var s := [c];
    assert Integer(s, 0) == Ok((None, 0));
    assert ParseSpec(s) == Ok(FormatSpec(' ', '<', None, false, false, None, None, None, c));
    if c == 's' {
      assert Layout(v, FormatSpec(' ', '<', None, false, false, None, None, None, c)) == v;
    }
  }

  /** A spec that parses to a string layout lays the value out. */
  lemma FormatStrLayout(v: string, spec: string, f: FormatSpec)
    requires spec != "" && ParseSpec(spec) == Ok(f)
    requires f.kind == 's' && f.sign.None? && !f.noNegZero && !f.alternate && f.align != '='
    ensures FormatStr(v, spec) == Ok(Layout(v, f))
  {
  }

  /** The value of one digit. */
  lemma DigitValue(s: string, p: nat)
    requires p < |s| && IsDigit(s[p]) && (p + 1 == |s| || !IsDigit(s[p + 1]))
    ensures Integer(s, p) == Ok((Some(s[p] as int - '0' as int), p + 1))
  {
    var r := Integer(s, p);
    assert s[p..p + 1] == [s[p]];
    assert [s[p]][..0] == [];
    assert DigitsValue(s[p..p + 1]) == s[p] as int - '0' as int;
    assert r.Ok? && r.value.1 == p + 1;
  }

  /** An align and a one-digit width. */
  lemma ParseAlignWidth(a: char, d: char)
    requires a == '<' || a == '>' || a == '^'
    requires '1' <= d <= '9'
    ensures ParseSpec([a, d]) == Ok(FormatSpec(' ', a, None, false, false, Some(d as int - '0' as int), None, None, 's'))
  {
    DigitValue([a, d], 1);
  }

  /** A precision of one digit. */
  lemma ParsePrecision(d: char)
    requires '0' <= d <= '9'
    ensures ParseSpec(['.', d]) == Ok(FormatSpec(' ', '<', None, false, false, None, None, Some(d as int - '0' as int), 's'))
  {
    assert Integer(['.', d], 0) == Ok((None, 0));
    DigitValue(['.', d], 1);
  }

  /**
   * An align and a one-digit width pad the value with spaces to that width:
   * after it for `<`, before it for `>`, half before and half after for `^`.
   */
  lemma FormatStrAlignWidth(v: string, a: char, d: char)
    requires a == '<' || a == '>' || a == '^'
    requires '1' <= d <= '9'
    ensures var w := d as int - '0' as int; var gap := if w > |v| then w - |v| else 0;
      FormatStr(v, [a, d]) == Ok(
        if a == '<' then v + Repeat(' ', gap)
        else if a == '>' then Repeat(' ', gap) + v
        else Repeat(' ', gap / 2) + v + Repeat(' ', gap - gap / 2))
  {
    var w := d as int - '0' as int;
    var f := FormatSpec(' ', a, None, false, false, Some(w), None, None, 's');
    ParseAlignWidth(a, d);
    FormatStrLayout(v, [a, d], f);
    var gap := if w > |v| then w - |v| else 0;
    LayoutNoPrecision(v, f);
    if a == '<' {
      assert Repeat(' ', 0) + v == v;
    } else if a == '>' {
      assert (Repeat(' ', gap) + v) + Repeat(' ', 0) == Repeat(' ', gap) + v;
    }
  }

  /** Without a precision the whole value is laid out between the two fills. */
  lemma LayoutNoPrecision(v: string, f: FormatSpec)
    requires f.precision.None?
    ensures var gap := if f.width.Some? && f.width.value > |v| then f.width.value - |v| else 0;
      var left := LeftFill(f.align, gap);
      Layout(v, f) == Repeat(f.fill, left) + v + Repeat(f.fill, gap - left)
  {
    assert v[..|v|] == v;
  }

  /** A precision of one digit cuts the value to that many characters. */
  lemma FormatStrPrecision(v: string, d: char)
    requires '0' <= d <= '9'
    ensures var n := d as int - '0' as int;
      FormatStr(v, ['.', d]) == Ok(if n < |v| then v[..n] else v)
  {
    var n := d as int - '0' as int;
    var f := FormatSpec(' ', '<', None, false, false, None, None, Some(n), 's');
    ParsePrecision(d);
    FormatStrLayout(v, ['.', d], f);
    var len := Shown(v, Some(n));
    assert Repeat(' ', 0) == [];
    assert Layout(v, f) == [] + v[..len] + [];
    assert [] + v[..len] + [] == v[..len];
    assert v[..|v|] == v;
  }

  // ── Rendering ─────────────────────────────────────────────────────────────

  /** The first part of a field name: up to the first `.` or `[`. */
  function FirstPartEnd(name: string): (i: nat)
    ensures i <= |name|
  {
    Until(name, 0, c => c == '.' || c == '[')
  }

  /**
   * A field refers to a positional argument when its first part is empty
   * (automatic numbering) or all digits; `format_map` has none to give.
   */
  predicate Positional(name: string) {
    AllDigits(name[..FirstPartEnd(name)])
  }

  predicate IsConversion(c: char) {
    c == 'r' || c == 's' || c == 'a'
  }

  /**
   * `build_string` at recursion depth `depth`: `format_map` starts at 2, a
   * format spec with a field in it is built one level down, and depth 0 is
   * a `ValueError`.
   */
  function Build(t: string, lookup: string -> string, depth: nat): (r: Result<string, string>)
    ensures depth == 0 ==> r == Err("Max string recursion exceeded")
    ensures depth > 0 && Parse(t).Err? ==> r.Err?
    decreases depth, 2, 0
  {
    if depth == 0 then Err("Max string recursion exceeded")
    else
      var ps :- Parse(t);
      RenderPieces(ps, lookup, depth)
  }

  /** The pieces rendered in order and joined; the first failing field fails the whole. */
  function RenderPieces(ps: seq<Piece>, lookup: string -> string, depth: nat): (r: Result<string, string>)
    requires depth >= 1
    ensures |ps| == 0 ==> r == Ok("")
    decreases depth, 1, |ps|
  {
    if |ps| == 0 then Ok([])
    else
      Join(
        match ps[0] case Lit(s) => Ok(s) case Field(_, _, _) => RenderField(ps[0], lookup, depth),
        RenderPieces(ps[1..], lookup, depth))
  }

  /** Two rendered parts one after the other; the first error wins. */
  function Join(head: Result<string, string>, rest: Result<string, string>): (r: Result<string, string>)
    ensures r.Ok? <==> head.Ok? && rest.Ok?
    ensures r.Ok? ==> r.value == head.value + rest.value
    ensures head.Err? ==> r == head
  {
    if head.Err? then head
    else if rest.Err? then rest
    else Ok(head.value + rest.value)
  }

  /** Rendering succeeds exactly when every field renders. */
  lemma {:induction false} RenderPiecesOk(ps: seq<Piece>, lookup: string -> string, depth: nat)
    requires depth >= 1
    ensures RenderPieces(ps, lookup, depth).Ok? <==>
      forall k :: 0 <= k < |ps| && ps[k].Field? ==> RenderField(ps[k], lookup, depth).Ok?
    decreases |ps|
  {
    if |ps| > 0 {
      RenderPiecesOk(ps[1..], lookup, depth);
      assert forall k :: 1 <= k < |ps| ==> ps[k] == ps[1..][k - 1];
    }
  }

  /**
   * The string one field contributes: a positional field and an unknown
   * conversion fail; a spec with a field in it is built first; the looked-up
   * value is then formatted by the spec.
   */
  function RenderField(f: Piece, lookup: string -> string, depth: nat): (r: Result<string, string>)
    requires f.Field? && depth >= 1
    ensures Positional(f.name) ==> r == Err("Format string contains positional fields")
    ensures !Positional(f.name) && f.conversion.Some? && !IsConversion(f.conversion.value) ==> r.Err?
    ensures !Positional(f.name) && (f.conversion.None? || IsConversion(f.conversion.value)) && f.spec.None? ==>
      r == Ok(lookup(f.name))
    ensures !Positional(f.name) && (f.conversion.None? || IsConversion(f.conversion.value))
            && f.spec.Some? && '{' !in f.spec.value ==>
      r == FormatStr(lookup(f.name), f.spec.value)
    decreases depth, 0, 0
  {
    if Positional(f.name) then Err("Format string contains positional fields")
    else if f.conversion.Some? && !IsConversion(f.conversion.value) then Err("Unknown conversion specifier")
    else
      var spec :-
        if f.spec.None? then Ok("")
        else if '{' in f.spec.value then Build(f.spec.value, lookup, depth - 1)
        else Ok(f.spec.value);
      FormatStr(lookup(f.name), spec)
  }

  /** `template.format_map(mapping)`, with `lookup` giving every key's value. */
  function FormatMap(t: string, lookup: string -> string): (r: Result<string, string>)
    ensures Parse(t).Err? ==> r.Err?
  {
    Build(t, lookup, 2)
  }

  /** Text without braces comes out unchanged. */
  lemma FormatPlain(t: string, lookup: string -> string)
    requires NoBraces(t)
    ensures FormatMap(t, lookup) == Ok(t)
  {
    if |t| > 0 {
      ParsePlain(t);
      RenderCons(Lit(t), [], t, lookup, 2);
      assert [Lit(t)] + [] == [Lit(t)];
      assert t + "" == t;
    }
  }

  /** A character that may appear in a plain key: no brace, `!`, `:`, `[` or `.`. */
  predicate NamePlain(c: char) {
    !IsBrace(c) && c != '!' && c != ':' && c != '[' && c != '.'
  }

  /** A plain key: only plain characters, and not a number. */
  predicate PlainKey(k: string) {
    (forall i :: 0 <= i < |k| ==> NamePlain(k[i])) && !AllDigits(k)
  }

  /** The name scan passes over plain characters. */
  lemma {:induction false} NameScanSkips(t: string, k: nat, j: nat)
    requires k <= j <= |t| && forall m :: k <= m < j ==> NamePlain(t[m])
    ensures NameScan(t, k) == NameScan(t, j)
    decreases j - k
  {
    if k < j {
      NameScanSkips(t, k + 1, j);
    }
  }

  /** Scanning brace-free text leaves the open-brace count as it was. */
  lemma {:induction false} MatchCloseSkips(t: string, k: nat, j: nat, depth: nat)
    requires k <= j <= |t| && depth >= 1 && forall m :: k <= m < j ==> !IsBrace(t[m])
    ensures MatchClose(t, k, depth) == MatchClose(t, j, depth)
    decreases j - k
  {
    if k < j {
      MatchCloseSkips(t, k + 1, j, depth);
    }
  }

  /** A plain key is not positional. */
  lemma PlainKeyNamed(key: string)
    requires PlainKey(key)
    ensures !Positional(key) && |key| > 0
  {
    assert FirstPartEnd(key) == |key|;
    assert key[..|key|] == key;
  }

  /** A plain key's field renders as the key's value. */
  lemma RenderPlainKey(key: string, lookup: string -> string, depth: nat)
    requires PlainKey(key) && depth >= 1
    ensures RenderField(Field(key, None, None), lookup, depth) == Ok(lookup(key))
  {
    PlainKeyNamed(key);
  }

  /** `{key}` followed by text, parsed. */
  lemma ParseFieldThenText(key: string, suffix: string)
    requires PlainKey(key)
    ensures var t := "{" + key + "}" + suffix;
      Parse(t) == Prepend(Lit(""), Prepend(Field(key, None, None), Parse(suffix)))
  {
    var t := "{" + key + "}" + suffix;
    var j := |key| + 1;
    assert t[1..j] == key && t[j] == '}';
    KeyNameScan(t, key);
    assert t[j + 1..] == suffix;
    ParseFieldStep(t, 0, Field(key, None, None), j + 1);
  }

  /** The name scan of a field that starts with a plain key stops right after the key. */
  lemma KeyNameScan(t: string, key: string)
    requires PlainKey(key) && |key| + 1 < |t| && t[0] == '{' && t[1..|key| + 1] == key && IsNameEnd(t[|key| + 1])
    ensures NameScan(t, 1) == Ok(|key| + 1)
    ensures ParseField(t, 1) == FieldAfterName(t, key, |key| + 1)
    ensures FirstBrace(t) == 0
  {
    var j := |key| + 1;
    assert forall m :: 1 <= m < j ==> t[m] == key[m - 1];
    NameScanSkips(t, 1, j);
  }

  /** `{key:spec}`, with a spec whose closing brace is the template's last character, parsed. */
  lemma ParseFieldWithSpec(key: string, spec: string)
    requires PlainKey(key)
    requires var t := "{" + key + ":" + spec + "}"; MatchClose(t, |key| + 2, 1) == Some(|t| - 1)
    ensures Parse("{" + key + ":" + spec + "}") == Ok([Lit(""), Field(key, None, Some(spec))])
  {
    KeySpecField(key, spec);
    ParseOneField("{" + key + ":" + spec + "}", Field(key, None, Some(spec)));
  }

  /** A template that is one field and nothing else. */
  lemma ParseOneField(t: string, f: Piece)
    requires |t| > 1 && t[0] == '{' && t[1] != '{' && FirstBrace(t) == 0 && ParseField(t, 1) == Ok((f, |t|))
    ensures Parse(t) == Ok([Lit(""), f])
  {
    ParseFieldStep(t, 0, f, |t|);
    assert t[|t|..] == [];
    assert t[..0] == "";
    assert Parse(t) == Prepend(Lit(""), Prepend(f, Ok([])));
    assert [f] + [] == [f];
    assert [Lit("")] + [f] == [Lit(""), f];
  }

  /** The field of `{key:spec}` runs to the end of the template. */
  lemma KeySpecField(key: string, spec: string)
    requires PlainKey(key)
    requires var t := "{" + key + ":" + spec + "}"; MatchClose(t, |key| + 2, 1) == Some(|t| - 1)
    ensures var t := "{" + key + ":" + spec + "}";
      FirstBrace(t) == 0 && |t| > 1 && t[1] != '{' && ParseField(t, 1) == Ok((Field(key, None, Some(spec)), |t|))
  {
    var t := "{" + key + ":" + spec + "}";
    var n := |key| + 1;
    var pre := "{" + key + ":";
    assert t == pre + spec + "}";
    assert t[..n + 1] == pre;
    assert t[1..n] == pre[1..n] == key && t[n] == pre[n] == ':';
    KeyNameScan(t, key);
    assert t[n + 1..|t| - 1] == spec;
    assert FieldAfterName(t, key, n) == SpecTo(t, n + 1, key, None);
  }

  /** A single field rendered at some depth: its own result, or its error. */
  lemma RenderSingle(f: Piece, lookup: string -> string, depth: nat)
    requires f.Field? && depth >= 1
    ensures RenderPieces([Lit(""), f], lookup, depth) == RenderField(f, lookup, depth)
  {
    assert [Lit(""), f][1..] == [f];
    assert [f][1..] == [];
    var r := RenderField(f, lookup, depth);
    assert RenderPieces([f], lookup, depth) == Join(r, Ok(""));
    if r.Ok? {
      assert r.value + "" == r.value;
      assert "" + r.value == r.value;
    }
  }

  /** A piece in front of others renders to its own text in front of theirs. */
  lemma RenderCons(p: Piece, rest: seq<Piece>, text: string, lookup: string -> string, depth: nat)
    requires depth >= 1
    requires (match p case Lit(s) => Ok(s) case Field(_, _, _) => RenderField(p, lookup, depth)) == Ok(text)
    ensures RenderPieces([p] + rest, lookup, depth) == Join(Ok(text), RenderPieces(rest, lookup, depth))
  {
    assert ([p] + rest)[1..] == rest;
  }

  /** `{key}` followed by plain text becomes the key's value followed by the text, at any depth. */
  lemma BuildFieldThenText(key: string, suffix: string, lookup: string -> string, depth: nat)
    requires PlainKey(key) && NoBraces(suffix) && depth >= 1
    ensures Build("{" + key + "}" + suffix, lookup, depth) == Ok(lookup(key) + suffix)
  {
    ParseFieldThenText(key, suffix);
    var tail: seq<Piece> := if |suffix| > 0 then [Lit(suffix)] else [];
    assert Parse(suffix) == Ok(tail) by {
      if |suffix| > 0 {
        ParsePlain(suffix);
      }
    }
    var f := Field(key, None, None);
    var ps := [Lit("")] + ([f] + tail);
    assert Parse("{" + key + "}" + suffix) == Ok(ps);
    assert RenderPieces(tail, lookup, depth) == Ok(suffix) by {
      if |suffix| > 0 {
        RenderCons(Lit(suffix), [], suffix, lookup, depth);
        assert [Lit(suffix)] + [] == tail;
        assert suffix + "" == suffix;
      }
    }
    RenderPlainKey(key, lookup, depth);
    RenderCons(f, tail, lookup(key), lookup, depth);
    RenderCons(Lit(""), [f] + tail, "", lookup, depth);
    assert "" + (lookup(key) + suffix) == lookup(key) + suffix;
  }

  /** The export template's usual shape: `{key}` then plain text. */
  lemma FormatFieldThenText(key: string, suffix: string, lookup: string -> string)
    requires PlainKey(key) && NoBraces(suffix)
    ensures FormatMap("{" + key + "}" + suffix, lookup) == Ok(lookup(key) + suffix)
  {
    BuildFieldThenText(key, suffix, lookup, 2);
  }

  /** A field with a brace-free spec formats the key's value by that spec. */
  lemma FormatFieldSpec(key: string, spec: string, lookup: string -> string)
    requires PlainKey(key) && NoBraces(spec)
    ensures FormatMap("{" + key + ":" + spec + "}", lookup) == FormatStr(lookup(key), spec)
  {
    var t := "{" + key + ":" + spec + "}";
    MatchCloseSkips(t, |key| + 2, |t| - 1, 1);
    ParseFieldWithSpec(key, spec);
    PlainKeyNamed(key);
    RenderSingle(Field(key, None, Some(spec)), lookup, 2);
  }

  /** A spec that is one `{...}` field closes at the brace after that field's. */
  lemma MatchCloseOneField(t: string, s: nat, j: nat)
    requires s < j && j + 1 < |t| && t[s] == '{' && t[j] == '}' && t[j + 1] == '}'
    requires forall m :: s < m < j ==> !IsBrace(t[m])
    ensures MatchClose(t, s, 1) == Some(j + 1)
  {
    MatchCloseSkips(t, s + 1, j, 2);
    assert MatchClose(t, j, 2) == MatchClose(t, j + 1, 1) == Some(j + 1);
  }

  /** A spec with a field whose own spec is a field closes three braces on. */
  lemma MatchCloseNested(t: string, s: nat, i: nat, j: nat)
    requires s < i < j && j + 2 < |t|
    requires t[s] == '{' && t[i] == '{' && t[j] == '}' && t[j + 1] == '}' && t[j + 2] == '}'
    requires forall m :: s < m < i ==> !IsBrace(t[m])
    requires forall m :: i < m < j ==> !IsBrace(t[m])
    ensures MatchClose(t, s, 1) == Some(j + 2)
  {
    MatchCloseSkips(t, s + 1, i, 2);
    MatchCloseSkips(t, i + 1, j, 3);
    assert MatchClose(t, j + 1, 2) == MatchClose(t, j + 2, 1) == Some(j + 2);
    assert MatchClose(t, i, 2) == MatchClose(t, j, 3);
  }

  /** In `{key:{inner}}` the spec `{inner}` runs to the last brace. */
  lemma SpecIsField(key: string, inner: string)
    requires PlainKey(key) && PlainKey(inner)
    ensures var t := "{" + key + ":" + ("{" + inner + "}") + "}";
      MatchClose(t, |key| + 2, 1) == Some(|t| - 1)
  {
    var t := "{" + key + ":" + ("{" + inner + "}") + "}";
    var s := |key| + 2;
    var j := s + 1 + |inner|;
    var pre := "{" + key + ":{";
    assert t == pre + inner + "}}";
    assert forall m :: s < m < j ==> t[m] == inner[m - s - 1];
    assert t[s] == pre[s] && t[j] == '}' && t[j + 1] == '}';
    MatchCloseOneField(t, s, j);
  }

  /**
   * A field in a format spec is filled in first: `{key:{inner}}` formats the
   * key's value by the inner key's value.
   */
  lemma FormatNestedSpec(key: string, inner: string, lookup: string -> string)
    requires PlainKey(key) && PlainKey(inner)
    ensures FormatMap("{" + key + ":{" + inner + "}}", lookup) == FormatStr(lookup(key), lookup(inner))
  {
    var spec := "{" + inner + "}";
    var f := Field(key, None, Some(spec));
    NestedSpecParse(key, inner);
    InnerFieldBuild(inner, lookup);
    RenderExpandedSpec(key, spec, lookup(inner), lookup, 2);
    BuildOneField("{" + key + ":{" + inner + "}}", f, lookup, 2);
  }

  /** `{key:{inner}}` is one field whose spec is `{inner}`. */
  lemma NestedSpecParse(key: string, inner: string)
    requires PlainKey(key) && PlainKey(inner)
    ensures Parse("{" + key + ":{" + inner + "}}") == Ok([Lit(""), Field(key, None, Some("{" + inner + "}"))])
  {
    var spec := "{" + inner + "}";
    assert "{" + key + ":" + spec + "}" == "{" + key + ":{" + inner + "}}";
    SpecIsField(key, inner);
    ParseFieldWithSpec(key, spec);
  }

  /** `{inner}` built one level down is the inner key's value. */
  lemma InnerFieldBuild(inner: string, lookup: string -> string)
    requires PlainKey(inner)
    ensures Build("{" + inner + "}", lookup, 1) == Ok(lookup(inner))
  {
    assert "{" + inner + "}" + "" == "{" + inner + "}";
    assert lookup(inner) + "" == lookup(inner);
    BuildFieldThenText(inner, "", lookup, 1);
  }

  /** A template that is one field builds to that field's rendering. */
  lemma BuildOneField(t: string, f: Piece, lookup: string -> string, depth: nat)
    requires f.Field? && depth >= 1 && Parse(t) == Ok([Lit(""), f])
    ensures Build(t, lookup, depth) == RenderField(f, lookup, depth)
  {
    RenderSingle(f, lookup, depth);
  }

  /** A field whose spec has a field in it is formatted by the spec as built one level down. */
  lemma RenderExpandedSpec(key: string, spec: string, built: string, lookup: string -> string, depth: nat)
    requires PlainKey(key) && depth >= 1 && '{' in spec && Build(spec, lookup, depth - 1) == Ok(built)
    ensures RenderField(Field(key, None, Some(spec)), lookup, depth) == FormatStr(lookup(key), built)
  {
    PlainKeyNamed(key);
  }

  /** In `{a:{b:{c}}}` the spec `{b:{c}}` runs to the last brace. */
  lemma SpecIsNestedField(a: string, b: string, c: string)
    requires PlainKey(a) && PlainKey(b) && PlainKey(c)
    ensures var t := "{" + a + ":" + ("{" + b + ":" + ("{" + c + "}") + "}") + "}";
      MatchClose(t, |a| + 2, 1) == Some(|t| - 1)
  {
    var t := "{" + a + ":" + ("{" + b + ":" + ("{" + c + "}") + "}") + "}";
    var s := |a| + 2;
    var i := s + |b| + 2;
    var j := i + 1 + |c|;
    var p1 := "{" + a + ":{";
    var p2 := p1 + b + ":{";
    assert t == p2 + c + "}}}";
    assert |p2| == i + 1;
    assert forall m :: s < m < i - 1 ==> t[m] == p2[m] == b[m - s - 1];
    assert t[i - 1] == p2[i - 1] == ':';
    assert forall m :: i < m < j ==> t[m] == c[m - i - 1];
    assert t[s] == p2[s] && t[i] == p2[i] && t[j] == '}' && t[j + 1] == '}' && t[j + 2] == '}';
    MatchCloseNested(t, s, i, j);
  }

  /** A field in a format spec that itself has a field in its spec goes one level too deep. */
  lemma FormatSpecTooDeep(a: string, b: string, c: string, lookup: string -> string)
    requires PlainKey(a) && PlainKey(b) && PlainKey(c)
    ensures FormatMap("{" + a + ":{" + b + ":{" + c + "}}}", lookup) == Err("Max string recursion exceeded")
  {
    var inner := "{" + c + "}";
    var spec := "{" + b + ":" + inner + "}";
    var t := "{" + a + ":" + spec + "}";
    assert t == "{" + a + ":{" + b + ":{" + c + "}}}";
    SpecIsField(b, c);
    ParseFieldWithSpec(b, inner);
    PlainKeyNamed(b);
    assert inner[0] == '{';
    RenderSingle(Field(b, None, Some(inner)), lookup, 1);
    assert Build(spec, lookup, 1) == Err("Max string recursion exceeded");
    SpecIsNestedField(a, b, c);
    ParseFieldWithSpec(a, spec);
    PlainKeyNamed(a);
    assert spec[0] == '{';
    RenderSingle(Field(a, None, Some(spec)), lookup, 2);
  }

  /** A `{` inside a field name is a `ValueError`, whatever follows. */
  lemma BraceInFieldName(key: string, rest: string, lookup: string -> string)
    requires |key| > 0 && forall i :: 0 <= i < |key| ==> NamePlain(key[i])
    ensures Parse("{" + key + "{" + rest) == Err("unexpected '{' in field name")
    ensures FormatMap("{" + key + "{" + rest, lookup) == Err("unexpected '{' in field name")
  {
    var t := "{" + key + "{" + rest;
    var j := |key| + 1;
    assert FirstBrace(t) == 0;
    assert t[1] == key[0];
    NameScanSkips(t, 1, j);
    assert ParseField(t, 1).Err?;
    assert Parse(t) == ParseAt(t, 0);
  }

  /** `{a{b}}`: a brace in a field name. */
  lemma BraceInNameExample(lookup: string -> string)
    ensures FormatMap("{a{b}}", lookup) == Err("unexpected '{' in field name")
  {
    assert "{a{b}}" == "{" + "a" + "{" + "b}}";
    assert NamePlain("a"[0]);
    BraceInFieldName("a", "b}}", lookup);
  }

  /** A one-character spec that is a type code other than `s` fails the field. */
  lemma UnknownCodeField(key: string, c: char, lookup: string -> string)
    requires PlainKey(key) && c != 's' && !IsBrace(c)
    requires !IsAlign(c) && !IsSign(c) && !IsDigit(c) && c !in {'z', '#', ',', '_', '.'}
    ensures FormatMap("{" + key + ":" + [c] + "}", lookup) == Err(UnknownCode(c))
  {
    assert NoBraces([c]);
    FormatFieldSpec(key, [c], lookup);
    FormatStrTypeOnly(lookup(key), c);
  }

  /** `{a:x}`: a type code strings do not have. */
  lemma UnknownCodeExample(lookup: string -> string)
    ensures FormatMap("{a:x}", lookup) == Err(UnknownCode('x'))
  {
    assert PlainKey("a") by {
      assert !IsDigit("a"[0]);
    }
    assert "{a:x}" == "{" + "a" + ":" + ['x'] + "}";
    UnknownCodeField("a", 'x', lookup);
  }
}
