/**
 * The `ContentType` value object: a Content-Type header value in the
 * one-parameter form of RFC 1521, section 4 ("The Content-Type Header Field").
 *
 * The header is parsed with one anchored regular expression
 *
 *   ^(?P<type>[^/\s]+)/(?P<subtype>[^;\s]+)(?:\s*;\s*(?P<attribute>[^=]+)=(?P<value>.+))?$
 *
 * which this module models as a deterministic matcher (`Match`) that returns
 * exactly the named groups Python's backtracking engine captures. The
 * language of the expression is stated separately by `Spell`, and
 * `MatchIff` proves that the matcher succeeds on precisely that language.
 */
module ContentTypes {
  import opened Wrappers

  /** The optional `attribute=value` parameter of a content type. */
  datatype Parameter = Parameter(attribute: string, value: string)

  /**
   * A content type `type/subtype` with an optional parameter. Keeping the
   * attribute and the value together in one optional field makes a content
   * type with only one of the two unrepresentable.
   */
  datatype ContentType = ContentType(mainType: string, subtype: string, parameter: Option<Parameter>)

  /** The fallback for a missing or malformed header. */
  const TextPlain := ContentType("text", "plain", None)

  // ---------------------------------------------------------------------
  // Character classes of the pattern
  // ---------------------------------------------------------------------

  /**
   * `\s` in a `str` pattern: the characters Python's `str.isspace`
   * accepts, split by code point so that a character below U+0085
   * is decided without looking at the wide spaces.
   */
  predicate IsSpace(c: char)
  {
    if c <= ' ' then c == ' ' || '\t' <= c <= '\r' || '\U{1C}' <= c
    else if c < '\U{85}' then false
    else IsWideSpace(c)
  }

  /** The whitespace characters at or above U+0085. */
  predicate IsWideSpace(c: char)
  {
    c == '\U{85}' || c == '\U{A0}' || c == '\U{1680}' || '\U{2000}' <= c <= '\U{200A}'
    || c == '\U{2028}' || c == '\U{2029}' || c == '\U{202F}' || c == '\U{205F}' || c == '\U{3000}'
  }

  /** `[^/\s]`, the characters of the type. */
  predicate IsTypeChar(c: char) { c != '/' && !IsSpace(c) }

  /** `[^;\s]`, the characters of the subtype. */
  predicate IsSubtypeChar(c: char) { c != ';' && !IsSpace(c) }

  /** `[^=]`, the characters of the attribute. */
  predicate IsAttributeChar(c: char) { c != '=' }

  /** `.` without DOTALL, the characters of the value. */
  predicate IsValueChar(c: char) { c != '\n' }

  /** The character classes the pattern uses. */
  datatype Class = Space | TypeChar | SubtypeChar | AttributeChar | ValueChar

  /** `c` is in class `k`. */
  predicate In(c: char, k: Class) {
    match k
    case Space => IsSpace(c)
    case TypeChar => IsTypeChar(c)
    case SubtypeChar => IsSubtypeChar(c)
    case AttributeChar => IsAttributeChar(c)
    case ValueChar => IsValueChar(c)
  }

  /** Every character of `s` is in class `k`. */
  predicate All(s: string, k: Class) {
    forall i :: 0 <= i < |s| ==> In(s[i], k)
  }

  /** `s` is matched by `[...]+` for the class `k`. */
  predicate Token(s: string, k: Class) {
    |s| > 0 && All(s, k)
  }

  /**
   * The end of the longest run of characters in class `k` that starts at
   * `start`: where a greedy `[...]*` begun at `start` stops.
   */
  function SpanFrom(s: string, start: nat, k: Class): (n: nat)
    requires start <= |s|
    ensures start <= n <= |s|
    ensures forall i :: start <= i < n ==> In(s[i], k)
    ensures n < |s| ==> !In(s[n], k)
    decreases |s| - start
  {
    if start == |s| || !In(s[start], k) then start else SpanFrom(s, start + 1, k)
  }

  // ---------------------------------------------------------------------
  // The language of the pattern
  // ---------------------------------------------------------------------

  /** The groups obey their character classes and are non-empty. */
  predicate Grammatical(ct: ContentType) {
    && Token(ct.mainType, TypeChar)
    && Token(ct.subtype, SubtypeChar)
    && (ct.parameter.Some? ==>
          Token(ct.parameter.value.attribute, AttributeChar) && Token(ct.parameter.value.value, ValueChar))
  }

  /**
   * The attribute is as the greedy `\s*` before it leaves it: it does not
   * start with whitespace, unless it is a single (whitespace) character,
   * which happens when only whitespace stands between `;` and `=`.
   */
  predicate Greedy(ct: ContentType) {
    match ct.parameter
    case None => true
    case Some(p) => |p.attribute| == 1 || (|p.attribute| > 1 && !IsSpace(p.attribute[0]))
  }

  /** A content type that parsing can return. */
  predicate Parseable(ct: ContentType) {
    Grammatical(ct) && Greedy(ct)
  }

  /**
   * The header text with the given groups, `leading` whitespace before the
   * `;` and `trailing` whitespace after it (both unused without a parameter).
   */
  function Spell(ct: ContentType, leading: string, trailing: string): string {
    ct.mainType + "/" + ct.subtype +
    match ct.parameter
    case None => ""
    case Some(p) => leading + ";" + trailing + p.attribute + "=" + p.value
  }

  /**
   * `s` is in the language of the pattern, with `$` matching at the end of
   * `s` or before a newline that ends it.
   */
  ghost predicate Matches(s: string) {
    exists ct, leading, trailing ::
      && Grammatical(ct) && All(leading, Space) && All(trailing, Space)
      && (s == Spell(ct, leading, trailing) || s == Spell(ct, leading, trailing) + "\n")
  }

  // ---------------------------------------------------------------------
  // The matcher
  // ---------------------------------------------------------------------

  /** What a successful match captures, with the whitespace around `;`. */
  datatype Captures = Captures(contentType: ContentType, leading: string, trailing: string)

  /** The part of a match after the subtype. */
  datatype Tail = Tail(leading: string, trailing: string, parameter: Parameter)

  /** Where a match of the optional group cuts it: at `;`, where the attribute starts, and at `=`. */
  datatype Cuts = Cuts(semicolon: nat, attribute: nat, equals: nat)

  /** `c` cuts `tail` into the pieces of `\s*;\s*[^=]+=.+`, the attribute left as the greedy `\s*` leaves it. */
  predicate CutsTail(tail: string, c: Cuts) {
    && c.semicolon < c.attribute < c.equals < |tail| - 1
    && (forall k :: 0 <= k < c.semicolon ==> In(tail[k], Space))
    && tail[c.semicolon] == ';'
    && (forall k :: c.semicolon < k < c.attribute ==> In(tail[k], Space))
    && (forall k :: c.attribute <= k < c.equals ==> In(tail[k], AttributeChar))
    && tail[c.equals] == '='
    && (forall k :: c.equals < k < |tail| ==> In(tail[k], ValueChar))
    && (c.attribute + 1 == c.equals || !IsSpace(tail[c.attribute]))
  }

  /**
   * `\s*;\s*(?P<attribute>[^=]+)=(?P<value>.+)$` on what follows the
   * subtype, scanned left to right: `a` ends the whitespace before `;`, `b`
   * the whitespace after it and `e` the attribute. Only the second `\s*`
   * ever gives a character back: when nothing but whitespace stands between
   * `;` and `=`, the attribute is the last whitespace character.
   */
  function CutParameter(tail: string): (r: Option<Cuts>)
    ensures r.Some? ==> CutsTail(tail, r.value)
  {
    var a := SpanFrom(tail, 0, Space);
    if a == |tail| || tail[a] != ';' then None
    else
      var b := SpanFrom(tail, a + 1, Space);
      var e := SpanFrom(tail, b, AttributeChar);
      if e + 1 >= |tail| || SpanFrom(tail, e + 1, ValueChar) < |tail| then None
      else if b < e then Some(Cuts(a, b, e))
      else if a + 1 < b then Some(Cuts(a, b - 1, e))
      else None
  }

  /**
   * The groups of the optional part: the whitespace on either side of `;`
   * (all whitespace), the attribute and the value (non-empty, in their
   * classes, the attribute as the greedy `\s*` leaves it). That they spell
   * `tail` is `MatchParameterSpells`.
   */
  function MatchParameter(tail: string): (r: Option<Tail>)
    ensures r.Some? ==>
      && All(r.value.leading, Space) && All(r.value.trailing, Space)
      && Token(r.value.parameter.attribute, AttributeChar) && Token(r.value.parameter.value, ValueChar)
      && (|r.value.parameter.attribute| == 1 || !IsSpace(r.value.parameter.attribute[0]))
  {
    match CutParameter(tail)
    case None => None
    case Some(c) =>
      RunAll(tail, 0, c.semicolon, Space);
      RunAll(tail, c.semicolon + 1, c.attribute, Space);
      RunAll(tail, c.attribute, c.equals, AttributeChar);
      RunAll(tail, c.equals + 1, |tail|, ValueChar);
      Some(Tail(tail[..c.semicolon], tail[c.semicolon + 1..c.attribute],
                Parameter(tail[c.attribute..c.equals], tail[c.equals + 1..])))
  }

  /**
   * The pattern with `$` read as the end of `s`: `i` ends the type and `j`
   * the subtype; the optional group is tried on whatever follows. What it
   * captures is parseable, with whitespace around `;`; that it spells `s` is
   * `MatchBodySpells`.
   */
  function MatchBody(s: string): (r: Option<Captures>)
    ensures r.Some? ==>
      Parseable(r.value.contentType) && All(r.value.leading, Space) && All(r.value.trailing, Space)
  {
    var i := SpanFrom(s, 0, TypeChar);
    if i == 0 || i == |s| || s[i] != '/' then None
    else
      var j := SpanFrom(s, i + 1, SubtypeChar);
      if j == i + 1 then None
      else
        RunAll(s, 0, i, TypeChar);
        RunAll(s, i + 1, j, SubtypeChar);
        if j == |s| then Some(Captures(ContentType(s[..i], s[i + 1..j], None), "", ""))
        else
          match MatchParameter(s[j..])
          case None => None
          case Some(t) => Some(Captures(ContentType(s[..i], s[i + 1..j], Some(t.parameter)), t.leading, t.trailing))
  }

  /** `s` without the one newline that may end it: where Python's `$` matches. */
  function Chomp(s: string): (r: string)
    ensures |r| <= |s| && r == s[..|r|]
    ensures |r| == |s| || (|r| + 1 == |s| && s[|r|] == '\n')
    ensures |r| < |s| <==> |s| > 0 && s[|s| - 1] == '\n'
  {
    if |s| > 0 && s[|s| - 1] == '\n' then s[..|s| - 1] else s
  }

  /**
   * `FORMAT.match(s)`. Python's `$` also matches before a final newline;
   * nothing in the pattern can consume that newline, so the match of `s` is
   * the match of `s` without it. What it captures is parseable; that it
   * spells `s`, up to that newline, is `MatchSpells`.
   */
  function Match(s: string): (r: Option<Captures>)
    ensures r.Some? ==>
      Parseable(r.value.contentType) && All(r.value.leading, Space) && All(r.value.trailing, Space)
  {
    MatchBody(Chomp(s))
  }

  /** `ContentType.from_response`, given the `Content-Type` header if there is one. */
  function FromHeader(header: Option<string>): (ct: ContentType)
    ensures Parseable(ct)
    ensures header.None? ==> ct == TextPlain
  {
    var s := if header.Some? then header.value else "";
    TextPlainParseable();
    match Match(s)
    case None => TextPlain
    case Some(m) => m.contentType
  }

  // ---------------------------------------------------------------------
  // Rendering and classification
  // ---------------------------------------------------------------------

  /**
   * `ContentType.__str__`: `type/subtype`, followed by `; attribute=value`
   * when the attribute or the value is non-empty (Python's truthiness test),
   * so that a parameter with both empty is dropped. That is the spelling
   * with no whitespace before `;` and one space after it.
   */
  function Render(ct: ContentType): (s: string)
    ensures s == if ct.parameter.Some? && ct.parameter.value != Parameter("", "")
                 then Spell(ct, "", " ") else ct.mainType + "/" + ct.subtype
  {
    var mime := ct.mainType + "/" + ct.subtype;
    match ct.parameter
    case None => mime
    case Some(p) => if p.attribute != "" || p.value != "" then mime + "; " + p.attribute + "=" + p.value else mime
  }

  /** ASCII lower-casing of one character. */
  function LowerChar(c: char): char {
    if 'A' <= c <= 'Z' then (c as int + 32) as char else c
  }

  /** ASCII lower-casing of a string. */
  function Lower(s: string): (r: string)
    ensures |r| == |s|
    ensures forall i :: 0 <= i < |s| ==> r[i] == LowerChar(s[i])
  {
    seq(|s|, i requires 0 <= i < |s| => LowerChar(s[i]))
  }

  /**
   * `ContentType.is_json`: `type/subtype`, lower-cased, is
   * `application/json`; that is, the type is `application` and the subtype
   * `json`, both ignoring ASCII case, and the parameter plays no part.
   */
  function IsJson(ct: ContentType): (b: bool)
    ensures b <==> Lower(ct.mainType) == "application" && Lower(ct.subtype) == "json"
  {
    JsonByParts(ct.mainType, ct.subtype);
    Lower(ct.mainType + "/" + ct.subtype) == "application/json"
  }

  // ---------------------------------------------------------------------
  // Proofs
  // ---------------------------------------------------------------------

  /** The fallback `text/plain` is itself something the parser can return. */
  lemma TextPlainParseable()
    ensures Parseable(TextPlain)
  {
    assert All("text", TypeChar) by {
      forall i | 0 <= i < 4 ensures IsTypeChar("text"[i]) {
        assert "text"[i] in {'t', 'e', 'x'};
      }
    }
    assert All("plain", SubtypeChar) by {
      forall i | 0 <= i < 5 ensures IsSubtypeChar("plain"[i]) {
        assert "plain"[i] in {'p', 'l', 'a', 'i', 'n'};
      }
    }
  }

  /** The characters from `start` to `n` are all in class `k`. */
  lemma RunAll(s: string, start: nat, n: nat, k: Class)
    requires start <= n <= |s|
    requires forall i :: start <= i < n ==> In(s[i], k)
    ensures All(s[start..n], k)
  {
  }

  /** A run in class `k` from `start` to `n` that cannot be extended is the span. */
  lemma SpanFromIs(s: string, start: nat, k: Class, n: nat)
    requires start <= n <= |s|
    requires forall i :: start <= i < n ==> In(s[i], k)
    requires n < |s| ==> !In(s[n], k)
    ensures SpanFrom(s, start, k) == n
  {
  }

  /** Cutting a parameter tail at its `;` and its `=`. */
  lemma CutTail(tail: string, a: nat, b: nat, e: nat)
    requires a < b <= e < |tail| && tail[a] == ';' && tail[e] == '='
    ensures tail == tail[..a] + ";" + tail[a + 1..b] + tail[b..e] + "=" + tail[e + 1..]
  {
  }

  /** Cutting a header at the `/` and at the end of the subtype. */
  lemma CutHeader(s: string, i: nat, j: nat)
    requires i < j <= |s| && s[i] == '/'
    ensures s == s[..i] + "/" + s[i + 1..j] + s[j..]
  {
  }

  /** A grammatical spelling never ends in a newline. */
  lemma SpellNoNewline(ct: ContentType, leading: string, trailing: string)
    requires Grammatical(ct)
    ensures var s := Spell(ct, leading, trailing); |s| > 0 && s[|s| - 1] != '\n'
  {
    var s := Spell(ct, leading, trailing);
    match ct.parameter
    case None =>
      assert s[|s| - 1] == ct.subtype[|ct.subtype| - 1];
    case Some(p) =>
      assert s[|s| - 1] == p.value[|p.value| - 1];
  }

  /**
   * `CutParameter` on a tail whose `;` is at `a` and whose first `=` after
   * it is at `e`: the attribute starts where the greedy `\s*` stops, or at
   * the last character before `=` if it stops only there.
   */
  lemma CutParameterAt(tail: string, a: nat, e: nat)
    requires a + 1 < e && e + 1 < |tail|
    requires forall k :: 0 <= k < a ==> In(tail[k], Space)
    requires tail[a] == ';' && tail[e] == '='
    requires forall k :: a < k < e ==> In(tail[k], AttributeChar)
    requires forall k :: e < k < |tail| ==> In(tail[k], ValueChar)
    ensures var b := SpanFrom(tail, a + 1, Space);
      b <= e && CutParameter(tail) == Some(Cuts(a, if b < e then b else e - 1, e))
  {
    SpanFromIs(tail, 0, Space, a);
    assert !In(tail[e], Space);
    var b := SpanFrom(tail, a + 1, Space);
    SpanFromIs(tail, b, AttributeChar, e);
    SpanFromIs(tail, e + 1, ValueChar, |tail|);
  }

  /** What `MatchParameter` captures spells the tail it was given. */
  lemma MatchParameterSpells(tail: string)
    requires MatchParameter(tail).Some?
    ensures var t := MatchParameter(tail).value;
      tail == t.leading + ";" + t.trailing + t.parameter.attribute + "=" + t.parameter.value
  {
    var c := CutParameter(tail).value;
    CutTail(tail, c.semicolon, c.attribute, c.equals);
  }

  /** What `MatchBody` captures spells its input. */
  lemma MatchBodySpells(s: string)
    requires MatchBody(s).Some?
    ensures var m := MatchBody(s).value; s == Spell(m.contentType, m.leading, m.trailing)
  {
    var i := SpanFrom(s, 0, TypeChar);
    var j := SpanFrom(s, i + 1, SubtypeChar);
    CutHeader(s, i, j);
    if j < |s| {
      MatchParameterSpells(s[j..]);
    }
  }

  /** What `Match` captures spells its input, up to a final newline. */
  lemma MatchSpells(s: string)
    requires Match(s).Some?
    ensures var m := Match(s).value;
      s == Spell(m.contentType, m.leading, m.trailing) || s == Spell(m.contentType, m.leading, m.trailing) + "\n"
  {
    var r := Chomp(s);
    MatchBodySpells(r);
    if |r| < |s| {
      assert s == s[..|r|] + [s[|r|]];
    }
  }

  /** Two adjacent slices join into one. */
  lemma SliceJoin(s: string, i: nat, j: nat, k: nat)
    requires i <= j <= k <= |s|
    ensures s[i..j] + s[j..k] == s[i..k]
  {
  }

  /**
   * A tail that `CutParameter` cuts at `c` instead of at `t`, the end of
   * the whitespace it was spelled with, is matched with groups that join
   * into the same text; cut at `t`, with the groups it was spelled with.
   */
  lemma RegroupTail(tail: string, a: nat, t: nat, c: nat, e: nat, leading: string, trailing: string, p: Parameter)
    requires a + 1 <= t <= e < |tail| && a + 1 <= c <= e
    requires CutParameter(tail) == Some(Cuts(a, c, e))
    requires tail[..a] == leading && tail[a + 1..t] == trailing && tail[t..e] == p.attribute && tail[e + 1..] == p.value
    ensures var r := MatchParameter(tail);
      && r.Some? && r.value.leading == leading && r.value.parameter.value == p.value
      && r.value.trailing + r.value.parameter.attribute == trailing + p.attribute
      && (c == t ==> r == Some(Tail(leading, trailing, p)))
  {
    assert MatchParameter(tail) == Some(Tail(tail[..a], tail[a + 1..c], Parameter(tail[c..e], tail[e + 1..])));
    SliceJoin(tail, a + 1, c, e);
    SliceJoin(tail, a + 1, t, e);
  }

  /** The slices of a spelled parameter tail. */
  lemma TailSlices(leading: string, trailing: string, p: Parameter)
    ensures var tail := leading + ";" + trailing + p.attribute + "=" + p.value;
      var a := |leading|;
      var t := a + 1 + |trailing|;
      var e := t + |p.attribute|;
      && tail[..a] == leading && tail[a + 1..t] == trailing
      && tail[t..e] == p.attribute && tail[e + 1..] == p.value
  {
  }

  /** The characters of a spelled parameter tail, by position. */
  lemma TailPieces(leading: string, trailing: string, p: Parameter)
    requires All(leading, Space) && All(trailing, Space)
    requires Token(p.attribute, AttributeChar) && Token(p.value, ValueChar)
    ensures var tail := leading + ";" + trailing + p.attribute + "=" + p.value;
      var a := |leading|;
      var t := a + 1 + |trailing|;
      var e := t + |p.attribute|;
      && e + 1 < |tail|
      && tail[a] == ';' && tail[e] == '=' && tail[t] == p.attribute[0]
      && (forall k :: 0 <= k < a ==> In(tail[k], Space))
      && (forall k :: a < k < t ==> In(tail[k], Space))
      && (forall k :: a < k < e ==> In(tail[k], AttributeChar))
      && (forall k :: e < k < |tail| ==> In(tail[k], ValueChar))
  {
    var tail := leading + ";" + trailing + p.attribute + "=" + p.value;
    var a := |leading|;
    var t := a + 1 + |trailing|;
    var e := t + |p.attribute|;
    forall k | 0 <= k < a ensures In(tail[k], Space) {
      assert tail[k] == leading[k];
    }
    forall k | a < k < e ensures In(tail[k], AttributeChar) {
      if k < t {
        assert tail[k] == trailing[k - a - 1];
      } else {
        assert tail[k] == p.attribute[k - t];
      }
    }
    forall k | e < k < |tail| ensures In(tail[k], ValueChar) {
      assert tail[k] == p.value[k - e - 1];
    }
  }

  /** `RegroupTail` for a spelled tail. */
  lemma RegroupSpelledTail(leading: string, trailing: string, p: Parameter, c: nat)
    requires var e := |leading| + 1 + |trailing| + |p.attribute|;
      && |leading| + 1 <= c < e
      && CutParameter(leading + ";" + trailing + p.attribute + "=" + p.value) == Some(Cuts(|leading|, c, e))
    ensures var r := MatchParameter(leading + ";" + trailing + p.attribute + "=" + p.value);
      && r.Some? && r.value.leading == leading && r.value.parameter.value == p.value
      && r.value.trailing + r.value.parameter.attribute == trailing + p.attribute
      && (c == |leading| + 1 + |trailing| ==> r == Some(Tail(leading, trailing, p)))
  {
    var a := |leading|;
    var t := a + 1 + |trailing|;
    TailSlices(leading, trailing, p);
    RegroupTail(leading + ";" + trailing + p.attribute + "=" + p.value, a, t, c, t + |p.attribute|, leading, trailing, p);
  }

  /**
   * Where `CutParameter` cuts a spelled tail: at its `;` and its `=`, with
   * the attribute starting where the greedy `\s*` stops or, if that is at
   * `=`, one character earlier; for a greedy attribute, exactly where it was
   * spelled.
   */
  lemma CutSpelledTail(leading: string, trailing: string, p: Parameter) returns (c: nat)
    requires All(leading, Space) && All(trailing, Space)
    requires Token(p.attribute, AttributeChar) && Token(p.value, ValueChar)
    ensures var tail := leading + ";" + trailing + p.attribute + "=" + p.value;
      var a := |leading|;
      var t := a + 1 + |trailing|;
      var e := t + |p.attribute|;
      && a + 1 <= c < e && e + 1 < |tail|
      && CutParameter(tail) == Some(Cuts(a, c, e))
      && ((|p.attribute| == 1 || !IsSpace(p.attribute[0])) ==> c == t)
  {
    var tail := leading + ";" + trailing + p.attribute + "=" + p.value;
    var a := |leading|;
    var t := a + 1 + |trailing|;
    var e := t + |p.attribute|;
    TailPieces(leading, trailing, p);
    CutParameterAt(tail, a, e);
    var b := SpanFrom(tail, a + 1, Space);
    c := if b < e then b else e - 1;
    if !IsSpace(p.attribute[0]) {
      SpanFromIs(tail, a + 1, Space, t);
    } else if |p.attribute| == 1 {
      SpanFromIs(tail, a + 1, Space, e);
    }
  }

  /**
   * The parameter part of every spelling is matched: the whitespace before
   * `;` and the value are kept, and the attribute is what remains of
   * `trailing + attribute` after the greedy `\s*`; for a greedy attribute
   * every group is kept.
   */
  lemma MatchParameterComplete(leading: string, trailing: string, p: Parameter)
    requires All(leading, Space) && All(trailing, Space)
    requires Token(p.attribute, AttributeChar) && Token(p.value, ValueChar)
    ensures var r := MatchParameter(leading + ";" + trailing + p.attribute + "=" + p.value);
      && r.Some?
      && r.value.leading == leading
      && r.value.parameter.value == p.value
      && r.value.trailing + r.value.parameter.attribute == trailing + p.attribute
      && ((|p.attribute| == 1 || !IsSpace(p.attribute[0])) ==> r == Some(Tail(leading, trailing, p)))
  {
    var c := CutSpelledTail(leading, trailing, p);
    RegroupSpelledTail(leading, trailing, p, c);
  }

  /**
   * The type and subtype of a header spelled `t/st` followed by `tail`,
   * where `tail` does not continue the subtype, are where the scan finds
   * them.
   */
  lemma HeadPieces(t: string, st: string, tail: string)
    requires Token(t, TypeChar) && Token(st, SubtypeChar)
    requires tail != [] ==> !In(tail[0], SubtypeChar)
    ensures var s := t + "/" + st + tail;
      var i := |t|;
      var j := i + 1 + |st|;
      && j <= |s| && s[i] == '/'
      && SpanFrom(s, 0, TypeChar) == i && SpanFrom(s, i + 1, SubtypeChar) == j
      && s[..i] == t && s[i + 1..j] == st && s[j..] == tail
  {
    var s := t + "/" + st + tail;
    var i := |t|;
    var j := i + 1 + |st|;
    assert s[..i] == t && s[i + 1..j] == st && s[j..] == tail;
    SpanFromIs(s, 0, TypeChar, i);
    SpanFromIs(s, i + 1, SubtypeChar, j);
  }

  /** `MatchBody` on a header whose type ends at `i` and whose subtype ends at `j`. */
  lemma MatchBodyAt(s: string, i: nat, j: nat)
    requires 0 < i < j <= |s| && i + 1 < j && s[i] == '/'
    requires SpanFrom(s, 0, TypeChar) == i && SpanFrom(s, i + 1, SubtypeChar) == j
    ensures j == |s| ==> MatchBody(s) == Some(Captures(ContentType(s[..i], s[i + 1..j], None), "", ""))
    ensures j < |s| ==>
      MatchBody(s) == match MatchParameter(s[j..])
        case None => None
        case Some(x) => Some(Captures(ContentType(s[..i], s[i + 1..j], Some(x.parameter)), x.leading, x.trailing))
  {
  }

  /**
   * `MatchBody` on a header spelled `t/st` followed by `tail`, where `tail`
   * does not continue the subtype: the groups are `t` and `st`, and the
   * optional group is tried on `tail`.
   */
  lemma MatchSpelledHead(t: string, st: string, tail: string)
    requires Token(t, TypeChar) && Token(st, SubtypeChar)
    requires tail != [] ==> !In(tail[0], SubtypeChar)
    ensures MatchBody(t + "/" + st + tail) ==
      if tail == [] then Some(Captures(ContentType(t, st, None), "", ""))
      else match MatchParameter(tail)
        case None => None
        case Some(x) => Some(Captures(ContentType(t, st, Some(x.parameter)), x.leading, x.trailing))
  {
    HeadPieces(t, st, tail);
    MatchBodyAt(t + "/" + st + tail, |t|, |t| + 1 + |st|);
  }

  /**
   * Every grammatical spelling is matched, with the same type, subtype and
   * value; a parseable content type is captured exactly as it was spelled.
   */
  lemma MatchBodyComplete(ct: ContentType, leading: string, trailing: string)
    requires Grammatical(ct) && All(leading, Space) && All(trailing, Space)
    ensures var m := MatchBody(Spell(ct, leading, trailing));
      && m.Some?
      && m.value.contentType.mainType == ct.mainType
      && m.value.contentType.subtype == ct.subtype
      && m.value.contentType.parameter.Some? == ct.parameter.Some?
      && (ct.parameter.Some? ==> m.value.contentType.parameter.value.value == ct.parameter.value.value)
      && (Greedy(ct) ==> m.value.contentType == ct)
      && (Greedy(ct) && ct.parameter.Some? ==> m.value.leading == leading && m.value.trailing == trailing)
  {
    match ct.parameter
    case None =>
      MatchSpelledHead(ct.mainType, ct.subtype, "");
    case Some(p) =>
      var tail := leading + ";" + trailing + p.attribute + "=" + p.value;
      assert tail[0] == if leading == [] then ';' else leading[0];
      MatchSpelledHead(ct.mainType, ct.subtype, tail);
      MatchParameterComplete(leading, trailing, p);
  }

  /** `Match` succeeds exactly on the language of the pattern. */
  lemma MatchIff(s: string)
    ensures Match(s).Some? <==> Matches(s)
  {
    if Match(s).Some? {
      MatchSpells(s);
      var m := Match(s).value;
      assert Grammatical(m.contentType) && All(m.leading, Space) && All(m.trailing, Space);
      assert s == Spell(m.contentType, m.leading, m.trailing) || s == Spell(m.contentType, m.leading, m.trailing) + "\n";
    }
    if Matches(s) {
      var ct, leading, trailing :|
        && Grammatical(ct) && All(leading, Space) && All(trailing, Space)
        && (s == Spell(ct, leading, trailing) || s == Spell(ct, leading, trailing) + "\n");
      var w := Spell(ct, leading, trailing);
      SpellNoNewline(ct, leading, trailing);
      MatchBodyComplete(ct, leading, trailing);
      if s == w + "\n" {
        assert s[..|s| - 1] == w;
      }
      assert Chomp(s) == w;
    }
  }

  /** A header outside the language of the pattern, or an empty one, falls back to `text/plain`. */
  lemma FallbackOnMismatch(h: string)
    requires !Matches(h) || h == ""
    ensures FromHeader(Some(h)) == TextPlain
  {
    MatchIff(h);
  }

  /**
   * A header in the language of the pattern is parsed into the groups it
   * spells, with the whitespace around `;` dropped.
   */
  lemma ParsedGroupsSpellHeader(h: string)
    requires Matches(h)
    ensures Match(h).Some?
    ensures var m := Match(h).value;
      && FromHeader(Some(h)) == m.contentType
      && (h == Spell(m.contentType, m.leading, m.trailing) || h == Spell(m.contentType, m.leading, m.trailing) + "\n")
  {
    MatchIff(h);
    MatchSpells(h);
  }

  /** Rendering a parseable content type and parsing it back gives it back. */
  lemma RenderThenParse(ct: ContentType)
    requires Parseable(ct)
    ensures FromHeader(Some(Render(ct))) == ct
  {
    SpellNoNewline(ct, "", " ");
    MatchBodyComplete(ct, "", " ");
  }

  /** Normalising a header twice is normalising it once. */
  lemma NormaliseIdempotent(header: Option<string>)
    ensures FromHeader(Some(Render(FromHeader(header)))) == FromHeader(header)
  {
    RenderThenParse(FromHeader(header));
  }

  /**
   * A header without a final newline, and without whitespace before `;` and
   * with one space after it when it has a parameter, is reproduced by
   * parsing and rendering it.
   */
  lemma ParseThenRender(h: string)
    requires Match(h).Some?
    requires var m := Match(h).value; m.contentType.parameter.Some? ==> m.leading == "" && m.trailing == " "
    requires |h| > 0 && h[|h| - 1] != '\n'
    ensures Render(FromHeader(Some(h))) == h
  {
    MatchSpells(h);
  }

  /**
   * The converse of `ParseThenRender`: a header that parse-then-render
   * reproduces matches, has no final newline, and has no whitespace before
   * `;` and exactly one space after it.
   */
  lemma ReproducedOnlyIf(h: string)
    requires Render(FromHeader(Some(h))) == h
    ensures Match(h).Some?
    ensures var m := Match(h).value; m.contentType.parameter.Some? ==> m.leading == "" && m.trailing == " "
    ensures |h| > 0 && h[|h| - 1] != '\n'
  {
    var ct := FromHeader(Some(h));
    SpellNoNewline(ct, "", " ");
    MatchBodyComplete(ct, "", " ");
  }

  /** Lower-casing distributes over `type + "/" + subtype`. */
  lemma LowerJoin(a: string, b: string)
    ensures Lower(a + "/" + b) == Lower(a) + "/" + Lower(b)
  {
    var l := Lower(a + "/" + b);
    var r := Lower(a) + "/" + Lower(b);
    forall k | 0 <= k < |l| ensures l[k] == r[k] {
      if k < |a| {
      } else if k == |a| {
      } else {
        assert (a + "/" + b)[k] == b[k - |a| - 1];
      }
    }
  }

  /** `a/b` lowers to `application/json` exactly when `a` lowers to `application` and `b` to `json`. */
  lemma JsonByParts(a: string, b: string)
    ensures Lower(a + "/" + b) == "application/json" <==> Lower(a) == "application" && Lower(b) == "json"
  {
    var target := "application/json";
    LowerJoin(a, b);
    var l := Lower(a) + "/" + Lower(b);
    if l == target {
      var n := |a|;
      assert l[n] == '/';
      assert forall k :: 0 <= k < |target| && k != 11 ==> target[k] != '/';
      assert n == 11;
      assert Lower(a) == l[..11] == target[..11];
      assert Lower(b) == l[12..] == target[12..];
    }
  }

  /** A word of ASCII letters, digits and hyphens fits every group. */
  lemma PlainWord(w: string)
    requires |w| > 0
    requires forall i :: 0 <= i < |w| ==> 'a' <= w[i] <= 'z' || 'A' <= w[i] <= 'Z' || '0' <= w[i] <= '9' || w[i] == '-'
    ensures Token(w, TypeChar) && Token(w, SubtypeChar) && Token(w, AttributeChar) && Token(w, ValueChar)
    ensures !IsSpace(w[0])
  {
  }

  /** Written in lower case, `application/json` is JSON whatever the parameter. */
  lemma LowerCaseJson(ct: ContentType)
    requires ct.mainType == "application" && ct.subtype == "json"
    ensures IsJson(ct)
  {
    assert Lower("application") == "application";
    assert Lower("json") == "json";
  }

  /** The content types of the examples: `text/plain`, `application/json` and the latter with a charset. */
  const ApplicationJson := ContentType("application", "json", None)
  const ApplicationJsonUtf8 := ContentType("application", "json", Some(Parameter("charset", "UTF-8")))

  /** `application/json` is something the parser can return. */
  lemma ApplicationJsonParseable()
    ensures Parseable(ApplicationJson)
  {
    PlainWord("application");
    PlainWord("json");
  }

  /** `application/json; charset=UTF-8` is something the parser can return. */
  lemma ApplicationJsonUtf8Parseable()
    ensures Parseable(ApplicationJsonUtf8)
  {
    ApplicationJsonParseable();
    PlainWord("charset");
    PlainWord("UTF-8");
  }

  /** `str` of `text/plain`. */
  lemma ExampleStrTextPlain()
    ensures Render(TextPlain) == "text/plain"
  {
  }

  /** `str` of `application/json`. */
  lemma ExampleStrJson()
    ensures Render(ApplicationJson) == "application/json"
  {
  }

  /** `str` of `application/json; charset=UTF-8`. */
  lemma ExampleStrJsonUtf8()
    ensures Render(ApplicationJsonUtf8) == "application/json; charset=UTF-8"
  {
    ExampleStrJson();
    assert "; " + "charset" + "=" + "UTF-8" == "; charset=UTF-8";
    assert "application/json" + "; charset=UTF-8" == "application/json; charset=UTF-8";
  }

  /** `from_response` on `text/plain`. */
  lemma ExampleFromResponseTextPlain()
    ensures FromHeader(Some("text/plain")) == TextPlain
  {
    TextPlainParseable();
    ExampleStrTextPlain();
    RenderThenParse(TextPlain);
  }

  /** `from_response` on `application/json`. */
  lemma ExampleFromResponseJson()
    ensures FromHeader(Some("application/json")) == ApplicationJson
  {
    ApplicationJsonParseable();
    ExampleStrJson();
    RenderThenParse(ApplicationJson);
  }

  /** `from_response` on `application/json; charset=UTF-8`. */
  lemma ExampleFromResponseJsonUtf8()
    ensures FromHeader(Some("application/json; charset=UTF-8")) == ApplicationJsonUtf8
  {
    ApplicationJsonUtf8Parseable();
    ExampleStrJsonUtf8();
    RenderThenParse(ApplicationJsonUtf8);
  }

  /** `is_json` of the three examples. */
  lemma ExampleIsJson()
    ensures !IsJson(TextPlain)
    ensures IsJson(ApplicationJson)
    ensures IsJson(ApplicationJsonUtf8)
  {
    assert Lower("text/plain")[0] == 't';
    LowerCaseJson(ApplicationJson);
    LowerCaseJson(ApplicationJsonUtf8);
  }
}
