/**
 * Badge URL construction: the escaping of one badge field, the path of a
 * static badge, and the route pattern handed to the path compiler.
 */
module MakeBadgeUrl {
  import opened Wrappers
  import opened UriComponent

  // ---------------------------------------------------------------------------
  // Field escaping: every `-` doubled, then every `_` doubled
  // ---------------------------------------------------------------------------

  /** The number of occurrences of `x` in `s`. */
  function Count(s: string, x: char): nat {
    if s == [] then 0 else (if s[0] == x then 1 else 0) + Count(s[1..], x)
  }

  /** One global `replace` pass that turns every `x` into `xx`. */
  function DoubleAll(s: string, x: char): (r: string)
    ensures |r| == |s| + Count(s, x)
  {
    if s == [] then [] else (if s[0] == x then [x, x] else [s[0]]) + DoubleAll(s[1..], x)
  }

  /** What the `replace` chain makes of one character. */
  function EscapeChar(c: char): string {
    if c == '-' then "--" else if c == '_' then "__" else [c]
  }

  /** The string `encodeField` hands to `encodeURIComponent`. */
  function Escape(s: string): string {
    DoubleAll(DoubleAll(s, '-'), '_')
  }

  /** Collapses `--` to `-` and `__` to `_`; a single `-` or `_` has no preimage. */
  function Unescape(t: string): Option<string> {
    if t == [] then Some([])
    else if t[0] == '-' || t[0] == '_' then
      if |t| >= 2 && t[1] == t[0] then Prepend(t[0], Unescape(t[2..])) else None
    else Prepend(t[0], Unescape(t[1..]))
  }

  lemma {:induction false} DoubleAllAppend(a: string, b: string, x: char)
    ensures DoubleAll(a + b, x) == DoubleAll(a, x) + DoubleAll(b, x)
  {
    if a == [] {
      assert a + b == b;
    } else {
      assert (a + b)[1..] == a[1..] + b;
      DoubleAllAppend(a[1..], b, x);
    }
  }

  lemma {:induction false} CountAppend(a: string, b: string, x: char)
    ensures Count(a + b, x) == Count(a, x) + Count(b, x)
  {
    if a == [] {
      assert a + b == b;
    } else {
      assert (a + b)[1..] == a[1..] + b;
      CountAppend(a[1..], b, x);
    }
  }

  /** Doubling one character leaves the count of any other unchanged. */
  lemma {:induction false} CountDoubleAll(s: string, x: char, y: char)
    requires x != y
    ensures Count(DoubleAll(s, x), y) == Count(s, y)
  {
    if s != [] {
      var head := if s[0] == x then [x, x] else [s[0]];
      CountAppend(head, DoubleAll(s[1..], x), y);
      assert head == [x, x] ==> head[1..] == [x];
      CountDoubleAll(s[1..], x, y);
    }
  }

  /** A string without `x` is left alone by doubling `x`. */
  lemma {:induction false} DoubleAllAbsent(s: string, x: char)
    requires x !in s
    ensures DoubleAll(s, x) == s
  {
    if s != [] {
      assert x !in s[1..];
      DoubleAllAbsent(s[1..], x);
      assert [s[0]] + s[1..] == s;
    }
  }

  /** The `replace` chain works character by character. */
  lemma EscapeAppend(a: string, b: string)
    ensures Escape(a + b) == Escape(a) + Escape(b)
  {
    DoubleAllAppend(a, b, '-');
    DoubleAllAppend(DoubleAll(a, '-'), DoubleAll(b, '-'), '_');
  }

  lemma EscapeOne(c: char)
    ensures Escape([c]) == EscapeChar(c)
  {
    assert [c][1..] == [];
    if c == '-' {
      assert DoubleAll("--", '_') == "--" by { DoubleAllAbsent("--", '_'); }
    }
  }

  lemma EscapeCons(s: string)
    requires s != []
    ensures Escape(s) == EscapeChar(s[0]) + Escape(s[1..])
  {
    assert s == [s[0]] + s[1..];
    EscapeAppend([s[0]], s[1..]);
    EscapeOne(s[0]);
  }

  /** The escaped string is longer by exactly one character per `-` and per `_`. */
  lemma EscapeLength(s: string)
    ensures |Escape(s)| == |s| + Count(s, '-') + Count(s, '_')
  {
    CountDoubleAll(s, '-', '_');
  }

  /** Un-escaping recovers the field, so the escape step is injective. */
  lemma {:induction false} UnescapeEscape(s: string)
    ensures Unescape(Escape(s)) == Some(s)
  {
    if s != [] {
      EscapeCons(s);
      var t := Escape(s);
      var e := EscapeChar(s[0]);
      UnescapeEscape(s[1..]);
      assert t[|e|..] == Escape(s[1..]);
      assert [s[0]] + s[1..] == s;
    }
  }

  /** The shape of `"a-b_c"` becoming `"a--b__c"`, for any three other characters. */
  lemma EscapeExample(a: char, b: char, c: char)
    requires a != '-' && a != '_' && b != '-' && b != '_' && c != '-' && c != '_'
    ensures Escape([a] + "-" + [b] + "_" + [c]) == [a] + "--" + [b] + "__" + [c]
  {
    EscapeAppend([a] + "-" + [b] + "_", [c]);
    EscapeAppend([a] + "-" + [b], "_");
    EscapeAppend([a] + "-", [b]);
    EscapeAppend([a], "-");
    EscapeOne(a);
    EscapeOne('-');
    EscapeOne(b);
    EscapeOne('_');
    EscapeOne(c);
  }

  // ---------------------------------------------------------------------------
  // encodeField
  // ---------------------------------------------------------------------------

  /** `encodeField(s)`. */
  function EncodeField(s: string): string {
    EncodeURIComponent(Escape(s))
  }

  /** The inverse of `encodeField`, as a server splitting a badge path would apply it. */
  function DecodeField(t: string): Option<string> {
    match DecodeURIComponent(t)
    case None => None
    case Some(u) => Unescape(u)
  }

  /** `encodeField` loses nothing: decoding gives the field back. */
  lemma DecodeEncodeField(s: string)
    ensures DecodeField(EncodeField(s)) == Some(s)
  {
    DecodeEncode(Escape(s));
    UnescapeEscape(s);
  }

  lemma EncodeFieldInjective(s1: string, s2: string)
    requires EncodeField(s1) == EncodeField(s2)
    ensures s1 == s2
  {
    DecodeEncodeField(s1);
    DecodeEncodeField(s2);
  }

  /** What `encodeField` makes of one character. */
  function FieldPiece(c: char): string {
    EncodeURIComponent(EscapeChar(c))
  }

  /** One character's piece: `--` and `__` for the two escaped marks, else no `-` or `_` at all. */
  lemma FieldPieceShape(c: char)
    ensures c == '-' ==> FieldPiece(c) == "--"
    ensures c == '_' ==> FieldPiece(c) == "__"
    ensures c != '-' && c != '_' ==> FieldPiece(c) == EncodeChar(c) && '-' !in FieldPiece(c) && '_' !in FieldPiece(c)
  {
    if c == '-' || c == '_' {
      EncodeUnreserved(EscapeChar(c));
    } else {
      assert [c][1..] == [];
      assert FieldPiece(c) == EncodeChar(c) + EncodeURIComponent([]);
      EncodeCharAlphabet(c);
    }
  }

  lemma EncodeFieldAppend(a: string, b: string)
    ensures EncodeField(a + b) == EncodeField(a) + EncodeField(b)
  {
    EscapeAppend(a, b);
    EncodeAppend(Escape(a), Escape(b));
  }

  lemma EncodeFieldOne(c: char)
    ensures EncodeField([c]) == FieldPiece(c)
  {
    EscapeOne(c);
  }

  lemma EncodeFieldCons(s: string)
    requires s != []
    ensures EncodeField(s) == FieldPiece(s[0]) + EncodeField(s[1..])
  {
    assert s == [s[0]] + s[1..];
    EncodeFieldAppend([s[0]], s[1..]);
    EncodeFieldOne(s[0]);
  }

  /** Characters outside the marks `-` and `_` that `encodeURIComponent` leaves alone. */
  predicate IsPlain(c: char) {
    IsAlphanumeric(c) || c == '.' || c == '!' || c == '~' || c == '*' || c == '\'' || c == '(' || c == ')'
  }

  /** A field of alphanumerics and `. ! ~ * ' ( )` is its own encoding. */
  lemma EncodeFieldPlain(s: string)
    requires forall k :: 0 <= k < |s| ==> IsPlain(s[k])
    ensures EncodeField(s) == s
  {
    DoubleAllAbsent(s, '-');
    DoubleAllAbsent(s, '_');
    EncodeUnreserved(s);
  }

  // ---------------------------------------------------------------------------
  // Runs of `-` and `_` in an encoded field
  // ---------------------------------------------------------------------------

  /** `t` can be read as a sequence of tokens in which `x` occurs only as `xx`. */
  predicate Paired(t: string, x: char) {
    if t == [] then true
    else if t[0] == x then |t| >= 2 && t[1] == x && Paired(t[2..], x)
    else Paired(t[1..], x)
  }

  /** `t[i..j]` is a maximal run of `x`. */
  ghost predicate IsMaximalRun(t: string, x: char, i: int, j: int) {
    && 0 <= i < j <= |t|
    && (forall k :: i <= k < j ==> t[k] == x)
    && (i == 0 || t[i - 1] != x)
    && (j == |t| || t[j] != x)
  }

  lemma {:induction false} PairedAbsent(t: string, x: char)
    requires x !in t
    ensures Paired(t, x)
  {
    if t != [] {
      assert x !in t[1..];
      PairedAbsent(t[1..], x);
    }
  }

  lemma {:induction false} PairedAppend(a: string, b: string, x: char)
    requires Paired(a, x) && Paired(b, x)
    ensures Paired(a + b, x)
  {
    if a == [] {
      assert a + b == b;
    } else if a[0] == x {
      assert (a + b)[2..] == a[2..] + b;
      PairedAppend(a[2..], b, x);
    } else {
      assert (a + b)[1..] == a[1..] + b;
      PairedAppend(a[1..], b, x);
    }
  }

  /** Every maximal run of `x` in a paired string has even length. */
  lemma {:induction false} PairedRunsEven(t: string, x: char, i: int, j: int)
    requires Paired(t, x) && IsMaximalRun(t, x, i, j)
    ensures (j - i) % 2 == 0
  {
    if t[0] == x {
      if i == 0 {
        if j > 2 {
          PairedRunsEven(t[2..], x, 0, j - 2);
        }
      } else {
        PairedRunsEven(t[2..], x, i - 2, j - 2);
      }
    } else {
      PairedRunsEven(t[1..], x, i - 1, j - 1);
    }
  }

  /** In a paired string, a run of `x` that starts at `k` goes on at `k + 1`. */
  lemma {:induction false} PairedRunStart(t: string, x: char, k: int)
    requires Paired(t, x) && 0 <= k < |t| && t[k] == x && (k == 0 || t[k - 1] != x)
    ensures k + 1 < |t| && t[k + 1] == x
  {
    if t[0] == x {
      if k > 0 {
        PairedRunStart(t[2..], x, k - 2);
      }
    } else {
      PairedRunStart(t[1..], x, k - 1);
    }
  }

  /** `encodeURIComponent` emits `-` and `_` only where its input has them, so `--` and `__` survive. */
  lemma {:induction false} EncodeFieldPaired(s: string, x: char)
    requires x == '-' || x == '_'
    ensures Paired(EncodeField(s), x)
  {
    if s != [] {
      EncodeFieldCons(s);
      FieldPieceShape(s[0]);
      var p := FieldPiece(s[0]);
      if x in p {
        assert p == [x, x];
        assert p[2..] == [];
      } else {
        PairedAbsent(p, x);
      }
      EncodeFieldPaired(s[1..], x);
      PairedAppend(p, EncodeField(s[1..]), x);
    }
  }

  /** Every maximal run of `-`, and of `_`, in an encoded field has even length. */
  lemma EncodeFieldRunsEven(s: string, x: char, i: int, j: int)
    requires x == '-' || x == '_'
    requires IsMaximalRun(EncodeField(s), x, i, j)
    ensures (j - i) % 2 == 0
  {
    EncodeFieldPaired(s, x);
    PairedRunsEven(EncodeField(s), x, i, j);
  }

  /** One character's piece is never empty and ends with `-` exactly when the character is `-`. */
  lemma FieldPieceEdges(c: char)
    ensures FieldPiece(c) != []
    ensures FieldPiece(c)[0] == '-' <==> c == '-'
    ensures FieldPiece(c)[|FieldPiece(c)| - 1] == '-' <==> c == '-'
  {
    FieldPieceShape(c);
    var p := FieldPiece(c);
    assert p[0] in p && p[|p| - 1] in p;
  }

  lemma EncodeFieldFirst(c: char, s: string)
    ensures EncodeField([c] + s) != []
    ensures EncodeField([c] + s)[0] == '-' <==> c == '-'
  {
    assert EncodeField([c] + s) == FieldPiece(c) + EncodeField(s) by {
      EncodeFieldAppend([c], s);
      EncodeFieldOne(c);
    }
    FieldPieceEdges(c);
  }

  lemma EncodeFieldSnoc(s: string, c: char)
    ensures EncodeField(s + [c]) == EncodeField(s) + FieldPiece(c)
  {
    EncodeFieldAppend(s, [c]);
    EncodeFieldOne(c);
  }

  lemma EndsWithPiece(a: string, c: char)
    ensures a + FieldPiece(c) != []
    ensures (a + FieldPiece(c))[|a + FieldPiece(c)| - 1] == '-' <==> c == '-'
  {
    var p := FieldPiece(c);
    FieldPieceEdges(c);
    assert (a + p)[|a + p| - 1] == p[|p| - 1];
  }

  /** An encoded field begins and ends with `-` exactly when the field does. */
  lemma EncodeFieldEdges(s: string)
    requires s != []
    ensures EncodeField(s) != []
    ensures EncodeField(s)[0] == '-' <==> s[0] == '-'
    ensures EncodeField(s)[|EncodeField(s)| - 1] == '-' <==> s[|s| - 1] == '-'
  {
    EncodeFieldHead(s);
    EncodeFieldLast(s);
  }

  lemma EncodeFieldHead(s: string)
    requires s != []
    ensures EncodeField(s) != []
    ensures EncodeField(s)[0] == '-' <==> s[0] == '-'
  {
    var c, rest := s[0], s[1..];
    assert s == [c] + rest;
    EncodeFieldFirst(c, rest);
  }

  lemma EncodeFieldLast(s: string)
    requires s != []
    ensures EncodeField(s) != []
    ensures EncodeField(s)[|EncodeField(s)| - 1] == '-' <==> s[|s| - 1] == '-'
  {
    var init, c := s[..|s| - 1], s[|s| - 1];
    assert s == init + [c];
    EncodeFieldSnoc(init, c);
    EndsWithPiece(EncodeField(init), c);
  }

  // ---------------------------------------------------------------------------
  // The query string carrying the style
  // ---------------------------------------------------------------------------

  predicate IsStrictlyEscaped(c: char) {
    c == '!' || c == '\'' || c == '(' || c == ')' || c == '*'
  }

  /** The strict URI encoding of the query-string library: `encodeURIComponent`, then `!'()*` too. */
  function StrictEncode(s: string): (t: string)
    ensures forall k :: 0 <= k < |t| ==> !IsStrictlyEscaped(t[k])
  {
    StrictEscape(EncodeURIComponent(s))
  }

  function StrictEscape(t: string): (r: string)
    ensures forall k :: 0 <= k < |r| ==> !IsStrictlyEscaped(r[k])
  {
    if t == [] then []
    else (if IsStrictlyEscaped(t[0]) then PercentOctet(t[0] as int) else [t[0]]) + StrictEscape(t[1..])
  }

  lemma {:induction false} StrictEscapeIdentity(t: string)
    requires forall k :: 0 <= k < |t| ==> !IsStrictlyEscaped(t[k])
    ensures StrictEscape(t) == t
  {
    if t != [] {
      StrictEscapeIdentity(t[1..]);
      assert [t[0]] + t[1..] == t;
    }
  }

  /** The query string of an object whose one key is `style`, for a `style` that is `undefined` or a string. */
  function StyleQuery(style: Option<string>): string {
    match style
    case None => ""
    case Some(v) => "style=" + StrictEncode(v)
  }

  /** The query string behind a `?`, or nothing at all when the query string is empty. */
  function QuerySuffix(style: Option<string>): (r: string)
    ensures r == "" <==> style.None?
  {
    var q := StyleQuery(style);
    if q != "" then "?" + q else ""
  }

  /** A style of alphanumerics and `-` appears in the query as it is. */
  lemma QuerySuffixPlainStyle(v: string)
    requires forall k :: 0 <= k < |v| ==> IsAlphanumeric(v[k]) || v[k] == '-'
    ensures QuerySuffix(Some(v)) == "?style=" + v
  {
    EncodeUnreserved(v);
    StrictEscapeIdentity(v);
  }

  // ---------------------------------------------------------------------------
  // staticBadgeUrl
  // ---------------------------------------------------------------------------

  /** The argument object of `staticBadgeUrl`; `None` is an absent (`undefined`) property. */
  datatype StaticBadge = StaticBadge(
    baseUrl: Option<string>,
    labelText: Option<string>,
    message: Option<string>,
    color: Option<string>,
    style: Option<string>,
    format: Option<string>)

  datatype BadgeError = LabelAndMessageRequired

  const DefaultColor := "lightgray"
  const DefaultFormat := "svg"

  /** JavaScript truthiness of a string or `undefined`. */
  predicate Truthy(v: Option<string>) {
    v.Some? && v.value != ""
  }

  /** A default parameter value: it replaces `undefined` only. */
  function OrDefault(v: Option<string>, default: string): string {
    match v
    case None => default
    case Some(s) => s
  }

  /** The parts, in order, with `sep` between each two of them. */
  function Join(parts: seq<string>, sep: string): string {
    if parts == [] then ""
    else if |parts| == 1 then parts[0]
    else parts[0] + sep + Join(parts[1..], sep)
  }

  /** `encodeField` applied to each field in turn. */
  function EncodeFields(fields: seq<string>): (r: seq<string>)
    ensures |r| == |fields|
    ensures forall i :: 0 <= i < |r| ==> r[i] == EncodeField(fields[i])
  {
    if fields == [] then [] else [EncodeField(fields[0])] + EncodeFields(fields[1..])
  }

  lemma JoinTwo(a: string, b: string, sep: string)
    ensures Join([a, b], sep) == a + sep + b
  {
    assert [a, b][1..] == [b];
  }

  lemma JoinThree(a: string, b: string, c: string, sep: string)
    ensures Join([a, b, c], sep) == a + sep + b + sep + c
  {
    JoinTwo(b, c, sep);
    assert [a, b, c][1..] == [b, c];
    assert [b, c][1..] == [c];
    assert a + sep + (b + sep + c) == a + sep + b + sep + c;
  }

  /** `staticBadgeUrl(badge)`; `Err` where the source throws. */
  function StaticBadgeUrl(badge: StaticBadge): (r: Result<string, BadgeError>)
    ensures r.Err? <==> !Truthy(badge.labelText) || !Truthy(badge.message)
  {
    if !Truthy(badge.labelText) || !Truthy(badge.message) then Err(LabelAndMessageRequired)
    else
      var fields := [badge.labelText.value, badge.message.value, OrDefault(badge.color, DefaultColor)];
      var path := Join(EncodeFields(fields), "-");
      Ok("/badge/" + path + "." + OrDefault(badge.format, DefaultFormat) + QuerySuffix(badge.style))
  }

  /** The exact path of a static badge, with and without a style. */
  lemma StaticBadgeUrlShape(badge: StaticBadge)
    requires Truthy(badge.labelText) && Truthy(badge.message)
    ensures StaticBadgeUrl(badge) == Ok(
      "/badge/" + EncodeField(badge.labelText.value) + "-" + EncodeField(badge.message.value)
      + "-" + EncodeField(OrDefault(badge.color, DefaultColor))
      + "." + OrDefault(badge.format, DefaultFormat) + QuerySuffix(badge.style))
  {
    var fields := [badge.labelText.value, badge.message.value, OrDefault(badge.color, DefaultColor)];
    var encoded := EncodeFields(fields);
    assert encoded == [encoded[0], encoded[1], encoded[2]];
    JoinThree(encoded[0], encoded[1], encoded[2], "-");
    RegroupPath(encoded[0], encoded[1], encoded[2], OrDefault(badge.format, DefaultFormat), QuerySuffix(badge.style));
  }

  /** Regroups the `+` chain of a path; stated over plain strings, where it is cheap to prove, rather than inside the lemmas that use it. */
  lemma RegroupPath(a: string, b: string, c: string, f: string, q: string)
    ensures "/badge/" + (a + "-" + b + "-" + c) + "." + f + q == "/badge/" + a + "-" + b + "-" + c + "." + f + q
  {
  }

  /** `encodeField` never emits `?`, so a query string is the only source of one. */
  lemma EncodeFieldNoQuestionMark(s: string)
    ensures '?' !in EncodeField(s)
  {
    var t := EncodeField(s);
    EncodeAlphabet(Escape(s));
    assert forall k :: 0 <= k < |t| ==> t[k] != '?';
  }

  /** Without a style, no query string at all: the path ends with the format. */
  lemma StaticBadgeUrlNoStyle(badge: StaticBadge)
    requires Truthy(badge.labelText) && Truthy(badge.message) && badge.style.None?
    ensures StaticBadgeUrl(badge) == Ok(
      "/badge/" + EncodeField(badge.labelText.value) + "-" + EncodeField(badge.message.value)
      + "-" + EncodeField(OrDefault(badge.color, DefaultColor))
      + "." + OrDefault(badge.format, DefaultFormat))
    ensures '?' in StaticBadgeUrl(badge).value <==> '?' in OrDefault(badge.format, DefaultFormat)
  {
    StaticBadgeUrlShape(badge);
    var l := EncodeField(badge.labelText.value);
    var m := EncodeField(badge.message.value);
    var c := EncodeField(OrDefault(badge.color, DefaultColor));
    var f := OrDefault(badge.format, DefaultFormat);
    var p := "/badge/" + l + "-" + m + "-" + c + "." + f;
    assert QuerySuffix(badge.style) == "";
    assert p + "" == p;
    EncodeFieldNoQuestionMark(badge.labelText.value);
    EncodeFieldNoQuestionMark(badge.message.value);
    EncodeFieldNoQuestionMark(OrDefault(badge.color, DefaultColor));
    NoQuestionMarkInPath(l, m, c, f);
  }

  lemma NoQuestionMarkInPath(l: string, m: string, c: string, f: string)
    requires '?' !in l && '?' !in m && '?' !in c
    ensures '?' in "/badge/" + l + "-" + m + "-" + c + "." + f <==> '?' in f
  {
    assert '?' !in "/badge/";
  }

  /** `baseUrl` does not enter the path. */
  lemma StaticBadgeUrlIgnoresBaseUrl(badge: StaticBadge, baseUrl: Option<string>)
    ensures StaticBadgeUrl(badge.(baseUrl := baseUrl)) == StaticBadgeUrl(badge)
  {
  }

  /** A badge whose fields need no escaping shows them verbatim. */
  lemma StaticBadgeUrlPlain(l: string, m: string, c: string, style: Option<string>)
    requires l != "" && m != ""
    requires forall k :: 0 <= k < |l| ==> IsPlain(l[k])
    requires forall k :: 0 <= k < |m| ==> IsPlain(m[k])
    requires forall k :: 0 <= k < |c| ==> IsPlain(c[k])
    ensures StaticBadgeUrl(StaticBadge(None, Some(l), Some(m), Some(c), style, None))
      == Ok("/badge/" + l + "-" + m + "-" + c + "." + DefaultFormat + QuerySuffix(style))
  {
    EncodeFieldPlain(l);
    EncodeFieldPlain(m);
    EncodeFieldPlain(c);
    StaticBadgeUrlShape(StaticBadge(None, Some(l), Some(m), Some(c), style, None));
  }

  /**
   * `build`, `passing` and `green` give `/badge/build-passing-green.svg`. The
   * fields are parameters fixed by the precondition, and the spelling of the
   * literal path is a separate lemma: with literal arguments the solver unfolds
   * the recursive encoders on the literal strings, which costs far more.
   */
  lemma StaticBadgeUrlExampleBuild(l: string, m: string, c: string)
    requires l == "build" && m == "passing" && c == "green"
    ensures StaticBadgeUrl(StaticBadge(None, Some(l), Some(m), Some(c), None, None))
      == Ok("/badge/build-passing-green.svg")
  {
    StaticBadgeUrlPlain(l, m, c, None);
    BuildSpelling(l, m, c);
    assert QuerySuffix(None) == "";
  }

  /** The characters of the example path, checked apart from the encoders. */
  lemma BuildSpelling(l: string, m: string, c: string)
    requires l == "build" && m == "passing" && c == "green"
    ensures "/badge/" + l + "-" + m + "-" + c + "." + DefaultFormat + "" == "/badge/build-passing-green.svg"
  {
  }

  lemma StaticBadgeUrlExampleMissing()
    ensures StaticBadgeUrl(StaticBadge(None, Some(""), Some("y"), None, None, None)) == Err(LabelAndMessageRequired)
    ensures StaticBadgeUrl(StaticBadge(None, None, Some("y"), None, None, None)) == Err(LabelAndMessageRequired)
  {
  }

  // ---------------------------------------------------------------------------
  // Splitting a static badge path back into its fields
  // ---------------------------------------------------------------------------

  /** `s` neither starts nor ends with `-`. */
  predicate NoEdgeHyphen(s: string) {
    s == [] || (s[0] != '-' && s[|s| - 1] != '-')
  }

  /** `a` can stand before a separator: non-empty, paired, and not ending in `-`. */
  predicate EndsClear(a: string) {
    a != [] && a[|a| - 1] != '-' && Paired(a, '-')
  }

  /** `b` can stand after a separator: it does not start with `-`. */
  predicate StartsClear(b: string) {
    b == [] || b[0] != '-'
  }

  /**
   * `a + "-" + b` splits at one place only when `a` is a non-empty paired
   * string that does not end in `-` and `b` does not start with `-`.
   */
  lemma SplitAtSeparator(a1: string, b1: string, a2: string, b2: string)
    requires a1 + "-" + b1 == a2 + "-" + b2
    requires EndsClear(a1) && EndsClear(a2)
    requires StartsClear(b1) && StartsClear(b2)
    ensures a1 == a2 && b1 == b2
  {
    var s := a1 + "-" + b1;
    if |a1| < |a2| {
      var k := |a1|;
      assert a2[k] == s[k] == '-';
      assert a2[k - 1] == s[k - 1] == a1[k - 1];
      assert s[k + 1] == b1[0];
      PairedRunStart(a2, '-', k);
    } else if |a2| < |a1| {
      var k := |a2|;
      assert a1[k] == s[k] == '-';
      assert a1[k - 1] == s[k - 1] == a2[k - 1];
      assert s[k + 1] == b2[0];
      PairedRunStart(a1, '-', k);
    }
    assert a1 == s[..|a1|] == a2;
    assert b1 == s[|a1| + 1..] == b2;
  }

  /**
   * When label and message neither start nor end with `-` and the color does
   * not start with `-`, the path determines label and message.
   */
  lemma StaticBadgeUrlDeterminesFields(x: StaticBadge, y: StaticBadge)
    requires StaticBadgeUrl(x).Ok? && StaticBadgeUrl(x) == StaticBadgeUrl(y)
    requires NoEdgeHyphen(x.labelText.value) && NoEdgeHyphen(x.message.value)
    requires NoEdgeHyphen(y.labelText.value) && NoEdgeHyphen(y.message.value)
    requires OrDefault(x.color, DefaultColor) == [] || OrDefault(x.color, DefaultColor)[0] != '-'
    requires OrDefault(y.color, DefaultColor) == [] || OrDefault(y.color, DefaultColor)[0] != '-'
    ensures x.labelText == y.labelText && x.message == y.message
  {
    var lx, mx, cx := x.labelText.value, x.message.value, OrDefault(x.color, DefaultColor);
    var ly, my, cy := y.labelText.value, y.message.value, OrDefault(y.color, DefaultColor);
    var tx := EncodeField(cx) + "." + OrDefault(x.format, DefaultFormat) + QuerySuffix(x.style);
    var ty := EncodeField(cy) + "." + OrDefault(y.format, DefaultFormat) + QuerySuffix(y.style);
    assert EncodeField(lx) + "-" + (EncodeField(mx) + "-" + tx) == EncodeField(ly) + "-" + (EncodeField(my) + "-" + ty) by {
      NestedPathForm(x);
      NestedPathForm(y);
      PrefixCancel("/badge/", EncodeField(lx) + "-" + (EncodeField(mx) + "-" + tx), EncodeField(ly) + "-" + (EncodeField(my) + "-" + ty));
    }
    assert StartsClear(tx) by {
      TailStart(cx, OrDefault(x.format, DefaultFormat), QuerySuffix(x.style));
    }
    assert StartsClear(ty) by {
      TailStart(cy, OrDefault(y.format, DefaultFormat), QuerySuffix(y.style));
    }
    SplitEncodedPath(lx, mx, tx, ly, my, ty);
  }

  /** Equal paths after `/badge/` come from the same label and message. */
  lemma SplitEncodedPath(lx: string, mx: string, tx: string, ly: string, my: string, ty: string)
    requires EncodeField(lx) + "-" + (EncodeField(mx) + "-" + tx) == EncodeField(ly) + "-" + (EncodeField(my) + "-" + ty)
    requires lx != [] && mx != [] && ly != [] && my != []
    requires NoEdgeHyphen(lx) && NoEdgeHyphen(mx) && NoEdgeHyphen(ly) && NoEdgeHyphen(my)
    requires StartsClear(tx) && StartsClear(ty)
    ensures lx == ly && mx == my
  {
    var elx, emx, ely, emy := EncodeField(lx), EncodeField(mx), EncodeField(ly), EncodeField(my);
    InnerField(lx);
    InnerField(ly);
    InnerField(mx);
    InnerField(my);
    SplitBadgePath(elx, emx, tx, ely, emy, ty);
    EncodeFieldInjective(lx, ly);
    EncodeFieldInjective(mx, my);
  }

  /** Equal badge paths, after `/badge/`, have the same encoded label and message. */
  lemma SplitBadgePath(lx: string, mx: string, tx: string, ly: string, my: string, ty: string)
    requires lx + "-" + (mx + "-" + tx) == ly + "-" + (my + "-" + ty)
    requires EndsClear(lx) && EndsClear(ly)
    requires EndsClear(mx) && EndsClear(my) && mx[0] != '-' && my[0] != '-'
    requires StartsClear(tx) && StartsClear(ty)
    ensures lx == ly && mx == my
  {
    StartsLikeField(mx, tx);
    StartsLikeField(my, ty);
    SplitAtSeparator(lx, mx + "-" + tx, ly, my + "-" + ty);
    SplitAtSeparator(mx, tx, my, ty);
  }

  lemma StartsLikeField(m: string, t: string)
    requires m != [] && m[0] != '-'
    ensures StartsClear(m + "-" + t)
  {
    assert (m + "-" + t)[0] == m[0];
  }

  /** What the separator argument needs of an encoded label or message. */
  lemma InnerField(s: string)
    requires s != [] && NoEdgeHyphen(s)
    ensures EndsClear(EncodeField(s)) && EncodeField(s)[0] != '-'
  {
    EncodeFieldEdges(s);
    EncodeFieldPaired(s, '-');
  }

  /** The path of a static badge as `/badge/`, the encoded label, a separator, the encoded message, a separator and the rest. */
  lemma NestedPathForm(badge: StaticBadge)
    requires Truthy(badge.labelText) && Truthy(badge.message)
    ensures StaticBadgeUrl(badge) == Ok("/badge/" + (EncodeField(badge.labelText.value) + "-"
      + (EncodeField(badge.message.value) + "-" + (EncodeField(OrDefault(badge.color, DefaultColor))
      + "." + OrDefault(badge.format, DefaultFormat) + QuerySuffix(badge.style)))))
  {
    StaticBadgeUrlShape(badge);
    Regroup(EncodeField(badge.labelText.value), EncodeField(badge.message.value),
      EncodeField(OrDefault(badge.color, DefaultColor)), OrDefault(badge.format, DefaultFormat), QuerySuffix(badge.style));
  }

  lemma TailStart(color: string, f: string, q: string)
    requires color == [] || color[0] != '-'
    ensures StartsClear(EncodeField(color) + "." + f + q)
  {
    var c := EncodeField(color);
    if color != [] {
      EncodeFieldEdges(color);
    }
    assert (c + "." + f + q)[0] == (if c == [] then '.' else c[0]);
  }

  /** Regroups the `+` chain of a path so that label, message and the rest can be split off in turn; stated over plain strings for the same reason as `RegroupPath`. */
  lemma Regroup(l: string, m: string, c: string, f: string, q: string)
    ensures "/badge/" + l + "-" + m + "-" + c + "." + f + q == "/badge/" + (l + "-" + (m + "-" + (c + "." + f + q)))
  {
  }

  lemma PrefixCancel(p: string, a: string, b: string)
    requires p + a == p + b
    ensures a == b
  {
    assert a == (p + a)[|p|..];
    assert b == (p + b)[|p|..];
  }

  /**
   * Without the edge condition the path is ambiguous: a label ending in `-`
   * and a message starting with `-` give the same badge path.
   */
  lemma StaticBadgeUrlEdgeHyphenAmbiguity(badge: StaticBadge)
    requires Truthy(badge.labelText) && Truthy(badge.message)
    ensures StaticBadgeUrl(badge.(labelText := Some(badge.labelText.value + "-")))
      == StaticBadgeUrl(badge.(message := Some("-" + badge.message.value)))
  {
    var l, m := badge.labelText.value, badge.message.value;
    var c, f, q := EncodeField(OrDefault(badge.color, DefaultColor)), OrDefault(badge.format, DefaultFormat), QuerySuffix(badge.style);
    assert EncodeField(l + "-") == EncodeField(l) + "--" by {
      EncodeFieldAppend(l, "-");
      EncodeFieldOne('-');
      FieldPieceShape('-');
    }
    assert EncodeField("-" + m) == "--" + EncodeField(m) by {
      EncodeFieldAppend("-", m);
      EncodeFieldOne('-');
      FieldPieceShape('-');
    }
    StaticBadgeUrlShape(badge.(labelText := Some(l + "-")));
    StaticBadgeUrlShape(badge.(message := Some("-" + m)));
    MoveHyphen(EncodeField(l), EncodeField(m), c, f, q);
  }

  /** Regrouping behind the edge-hyphen ambiguity: `a--` then `-b` reads as `a-` then `--b`, over plain strings. */
  lemma MoveHyphen(a: string, b: string, c: string, f: string, q: string)
    ensures "/badge/" + (a + "--") + "-" + b + "-" + c + "." + f + q
      == "/badge/" + a + "-" + ("--" + b) + "-" + c + "." + f + q
  {
  }

  // ---------------------------------------------------------------------------
  // makeFullPattern and makeBadgeUrlFromPattern
  // ---------------------------------------------------------------------------

  /** The extension placeholder every badge route ends with. */
  const ExtPlaceholder := ".:ext(svg|png|gif|jpg|json)"

  /** `makeFullPattern({ base, pattern })`. */
  function MakeFullPattern(base: Option<string>, pattern: string): (r: string)
    ensures Truthy(base) ==> r == "/" + base.value + "/" + pattern + ExtPlaceholder
    ensures !Truthy(base) ==> r == "/" + pattern + ExtPlaceholder
  {
    if Truthy(base) then
      JoinTwo(base.value, pattern, "/");
      "/" + Join([base.value, pattern], "/") + ExtPlaceholder
    else
      "/" + pattern + ExtPlaceholder
  }

  /** A base is only a leading path segment: moving it into the pattern changes nothing. */
  lemma MakeFullPatternBaseIsPrefix(base: string, pattern: string)
    requires base != ""
    ensures MakeFullPattern(Some(base), pattern) == MakeFullPattern(None, base + "/" + pattern)
    ensures MakeFullPattern(Some(""), pattern) == MakeFullPattern(None, pattern)
  {
    var r := MakeFullPattern(Some(base), pattern);
    assert r == "/" + base + "/" + pattern + ExtPlaceholder;
  }

  /** A pattern that starts with its own `/` gives `//` after a base, since the join adds one. */
  lemma MakeFullPatternDoubleSlash(base: string, p: string)
    requires base != ""
    ensures MakeFullPattern(Some(base), "/" + p) == "/" + base + "//" + p + ExtPlaceholder
  {
    DoubleSlash("/" + base, p, ExtPlaceholder);
  }

  lemma DoubleSlash(a: string, p: string, e: string)
    ensures a + "/" + ("/" + p) + e == a + "//" + p + e
  {
    assert "/" + ("/" + p) == "//" + p;
  }

  /** For a given base, the full pattern determines the route pattern. */
  lemma MakeFullPatternInjective(base: Option<string>, p1: string, p2: string)
    requires MakeFullPattern(base, p1) == MakeFullPattern(base, p2)
    ensures p1 == p2
  {
    var pre := if Truthy(base) then "/" + base.value + "/" else "/";
    Infix(pre, p1, p2, ExtPlaceholder);
  }

  lemma Infix(pre: string, a: string, b: string, post: string)
    requires pre + a + post == pre + b + post
    ensures a == b
  {
    assert a == (pre + a + post)[|pre|..|pre| + |a|];
    assert b == (pre + b + post)[|pre|..|pre| + |b|];
  }

  /** The parameters handed to the compiled pattern: `ext` plus the named ones, where a named parameter called `ext` wins. */
  function PathParams(namedParams: map<string, string>, ext: string): (p: map<string, string>)
    ensures p.Keys == namedParams.Keys + {"ext"}
    ensures p["ext"] == if "ext" in namedParams then namedParams["ext"] else ext
    ensures forall name :: name in namedParams ==> p[name] == namedParams[name]
  {
    map["ext" := ext] + namedParams
  }

  /**
   * `makeBadgeUrlFromPattern`; `compile` stands for `pathToRegexp.compile` with
   * `strict` and `sensitive` set, which is not part of this model.
   */
  function MakeBadgeUrlFromPattern<E>(
    base: Option<string>, pattern: string, namedParams: map<string, string>, ext: Option<string>,
    compile: string -> map<string, string> -> Result<string, E>): (r: Result<string, E>)
    ensures r == compile(MakeFullPattern(base, pattern))(PathParams(namedParams, OrDefault(ext, "svg")))
    ensures "ext" in namedParams ==> r == compile(MakeFullPattern(base, pattern))(namedParams)
    ensures "ext" !in namedParams && ext.Some? ==>
      r == compile(MakeFullPattern(base, pattern))(namedParams["ext" := ext.value])
    ensures "ext" !in namedParams && ext.None? ==>
      r == compile(MakeFullPattern(base, pattern))(namedParams["ext" := "svg"])
  {
    var params := PathParams(namedParams, OrDefault(ext, "svg"));
    assert "ext" in namedParams ==> params == namedParams;
    assert "ext" !in namedParams ==> params == namedParams["ext" := OrDefault(ext, "svg")];
    compile(MakeFullPattern(base, pattern))(params)
  }
}
