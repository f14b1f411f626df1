/** `template.format(**tags)` restricted to plain `{name}` fields and the
    `{{` / `}}` escapes: how the destination template is bound to an image's
    attributes. */
module Template {
  import opened Wrappers

  /** `MissingKey` is the `KeyError` of a field whose name is not a keyword
      argument; `Malformed` covers the `ValueError` of a lone '}' or an
      unclosed '{', and the `IndexError` of an empty `{}` field (there are no
      positional arguments). A '{' inside a field name, which Python 2.7
      reads as part of the name, is also reported as `Malformed` here, and a
      numeric field such as `{0}` is looked up by name rather than by
      position. */
  datatype FormatError = MissingKey(key: string) | Malformed

  predicate NoBraces(s: string)
  {
    forall i :: 0 <= i < |s| ==> s[i] != '{' && s[i] != '}'
  }

  /** Length of the leading run of non-brace characters: a field's name. */
  function NameLen(s: string): (n: nat)
    ensures n <= |s| && NoBraces(s[..n])
    ensures n < |s| ==> s[n] == '{' || s[n] == '}'
  {
    if s == [] || s[0] == '{' || s[0] == '}' then 0
    else
      assert s[..1 + NameLen(s[1..])] == [s[0]] + s[1..][..NameLen(s[1..])];
      1 + NameLen(s[1..])
  }

  /** Prefixes the text of a successful result; errors pass through. */
  function Prepend(s: string, r: Result<string, FormatError>): Result<string, FormatError>
  {
    match r
    case Ok(v) => Ok(s + v)
    case Err(e) => Err(e)
  }

  /** `t.format(**tags)`, scanned from left to right the way Python reports
      errors: the first problem met, a missing key or a malformed brace,
      is the error, and no partly substituted text is ever returned. */
  function Format(t: string, tags: map<string, string>): (r: Result<string, FormatError>)
    ensures r.Err? && r.error.MissingKey? ==> r.error.key !in tags && r.error.key != []
    decreases |t|
  {
    if t == [] then Ok([])
    else if t[0] == '{' then
      if |t| > 1 && t[1] == '{' then Prepend("{", Format(t[2..], tags))
      else
        var n := NameLen(t[1..]);
        if n == 0 || 1 + n == |t| || t[1 + n] == '{' then Err(Malformed)
        else
          var key := t[1..1 + n];
          if key in tags then Prepend(tags[key], Format(t[2 + n..], tags))
          else Err(MissingKey(key))
    else if t[0] == '}' then
      if |t| > 1 && t[1] == '}' then Prepend("}", Format(t[2..], tags))
      else Err(Malformed)
    else Prepend([t[0]], Format(t[1..], tags))
  }

  /** A template read as a sequence of literal characters and named fields:
      the reference against which `Format` is stated. */
  datatype Piece = Lit(c: char) | Field(name: string)

  /** A field name the scanner can read back: non-empty, without braces. */
  predicate WellFormed(p: Piece)
  {
    p.Field? ==> p.name != [] && NoBraces(p.name)
  }

  /** How a piece is written in a template: braces doubled, fields braced. */
  function PieceText(p: Piece): string
  {
    match p
    case Lit(c) => if c == '{' || c == '}' then [c, c] else [c]
    case Field(name) => "{" + name + "}"
  }

  /** The template text of a sequence of pieces. */
  function Unparse(ps: seq<Piece>): string
  {
    if ps == [] then [] else PieceText(ps[0]) + Unparse(ps[1..])
  }

  /** Substitutes every field by its attribute, or reports the first field
      without one. */
  function Render(ps: seq<Piece>, tags: map<string, string>): Result<string, FormatError>
  {
    if ps == [] then Ok([])
    else match ps[0]
      case Lit(c) => Prepend([c], Render(ps[1..], tags))
      case Field(name) =>
        if name in tags then Prepend(tags[name], Render(ps[1..], tags))
        else Err(MissingKey(name))
  }

  /** Scanning a written literal character yields that character. */
  lemma FormatLitText(c: char, rest: string, tags: map<string, string>)
    ensures Format(PieceText(Lit(c)) + rest, tags) == Prepend([c], Format(rest, tags))
  {
    var t := PieceText(Lit(c)) + rest;
    if c == '{' || c == '}' {
      assert t[2..] == rest;
    } else {
      assert t[1..] == rest;
    }
  }

  /** Scanning a written field looks its name up. */
  lemma FormatFieldText(name: string, rest: string, tags: map<string, string>)
    requires WellFormed(Field(name))
    ensures Format(PieceText(Field(name)) + rest, tags)
         == if name in tags then Prepend(tags[name], Format(rest, tags)) else Err(MissingKey(name))
  {
    var t := PieceText(Field(name)) + rest;
    var n := |name|;
    assert t[1..] == name + ("}" + rest);
    assert forall i :: 0 <= i < n ==> t[1..][i] == name[i];
    assert t[1..][n] == '}';
    assert NameLen(t[1..]) == n;
    assert t[1..1 + n] == name;
    assert t[2 + n..] == rest;
  }

  /** A written field at the end of a template is looked up. */
  lemma FormatFieldLast(name: string, tags: map<string, string>)
    requires WellFormed(Field(name))
    ensures Format(PieceText(Field(name)), tags)
         == if name in tags then Ok(tags[name]) else Err(MissingKey(name))
  {
    FormatFieldText(name, [], tags);
    assert PieceText(Field(name)) + [] == PieceText(Field(name));
    if name in tags {
      assert tags[name] + [] == tags[name];
    }
  }

  /** Scanning the text of well-formed pieces substitutes exactly those
      pieces: `Format` agrees with `Render` on every template written this
      way. */
  lemma {:induction false} FormatUnparse(ps: seq<Piece>, tags: map<string, string>)
    requires forall i :: 0 <= i < |ps| ==> WellFormed(ps[i])
    ensures Format(Unparse(ps), tags) == Render(ps, tags)
  {
    if ps != [] {
      FormatUnparse(ps[1..], tags);
      match ps[0]
      case Lit(c) => FormatLitText(c, Unparse(ps[1..]), tags);
      case Field(name) => FormatFieldText(name, Unparse(ps[1..]), tags);
    }
  }

  /** The bound text exists exactly when every field names an attribute. */
  lemma {:induction false} RenderOkIff(ps: seq<Piece>, tags: map<string, string>)
    ensures Render(ps, tags).Ok? <==> forall i :: 0 <= i < |ps| && ps[i].Field? ==> ps[i].name in tags
  {
    if ps != [] {
      RenderOkIff(ps[1..], tags);
      assert forall i :: 1 <= i < |ps| ==> ps[i] == ps[1..][i - 1];
    }
  }

  /** When binding fails, the error names the first field, in template
      order, that has no attribute. */
  lemma {:induction false} RenderFirstMissing(ps: seq<Piece>, tags: map<string, string>, i: nat)
    requires i < |ps| && ps[i].Field? && ps[i].name !in tags
    requires forall j :: 0 <= j < i && ps[j].Field? ==> ps[j].name in tags
    ensures Render(ps, tags) == Err(MissingKey(ps[i].name))
  {
    if i > 0 {
      assert forall j :: 0 <= j < i - 1 ==> ps[1..][j] == ps[j + 1];
      RenderFirstMissing(ps[1..], tags, i - 1);
    }
  }

  /** A template without braces is copied unchanged, whatever the attributes. */
  lemma {:induction false} FormatLiteral(t: string, tags: map<string, string>)
    requires NoBraces(t)
    ensures Format(t, tags) == Ok(t)
  {
    if t != [] {
      FormatLiteral(t[1..], tags);
      assert [t[0]] + t[1..] == t;
    }
  }
}
