/** The character-level rewrites of the text utilities: backslash
    substitution for message bodies, un-escaping of `\/` in URLs, and the
    reduction of date macros `<!date^...|label>` to their label. */
module Util {
  import opened Results
  import opened Text

  // ---------------------------------------------------------------------
  // Backslash substitution
  // ---------------------------------------------------------------------

  /** The substitution table: a single rule turning every backslash into a
      forward slash. */
  const SubstitutionRules: seq<(char, char)> := [('\\', '/')]

  /** Every occurrence of `from` becomes `to`; all other characters stay. */
  function SubstituteChar(s: string, from: char, to: char): (r: string)
    ensures |r| == |s|
    ensures forall i :: 0 <= i < |s| ==> r[i] == (if s[i] == from then to else s[i])
  {
    if s == [] then [] else [if s[0] == from then to else s[0]] + SubstituteChar(s[1..], from, to)
  }

  /** Applies the first rule of the table only: the loop over the table
      returns from its first iteration. */
  function Replace(s: string): (r: string)
    ensures |r| == |s|
    ensures forall i :: 0 <= i < |s| ==> r[i] == (if s[i] == '\\' then '/' else s[i])
    ensures '\\' !in r
  {
    var (from, to) := SubstitutionRules[0];
    SubstituteChar(s, from, to)
  }

  lemma ReplaceIdempotent(s: string)
    ensures Replace(Replace(s)) == Replace(s)
  {
    var r := Replace(s);
    assert '\\' !in r;
    forall i | 0 <= i < |r|
      ensures Replace(r)[i] == r[i]
    {
      assert r[i] in r;
    }
  }

  /** `Replace` leaves a string alone exactly when it holds no backslash. */
  lemma ReplaceFixedPoint(s: string)
    ensures Replace(s) == s <==> '\\' !in s
  {
    if '\\' in s {
      var i :| 0 <= i < |s| && s[i] == '\\';
      assert Replace(s)[i] == '/';
    } else {
      forall i | 0 <= i < |s|
        ensures Replace(s)[i] == s[i]
      {
        assert s[i] in s;
      }
    }
  }

  // ---------------------------------------------------------------------
  // URL un-escaping
  // ---------------------------------------------------------------------

  /** Index `i` holds a backslash immediately followed by a slash. */
  predicate EscapedSlashAt(s: string, i: int) {
    0 <= i && i + 1 < |s| && s[i] == '\\' && s[i + 1] == '/'
  }

  /** Number of backslash-slash pairs in `s`. */
  function CountEscapedSlashes(s: string): nat {
    if |s| < 2 then 0 else (if EscapedSlashAt(s, 0) then 1 else 0) + CountEscapedSlashes(s[1..])
  }

  /** The regular-expression substitution of `\/` by `/`: a left-to-right
      scan that rewrites each pair it meets and resumes after it. */
  function UrlUnescape(s: string): (r: string)
    ensures !Contains(s, "\\/") ==> r == s
    ensures |r| == |s| - CountEscapedSlashes(s)
    decreases |s|
  {
    if |s| == 0 then []
    else if EscapedSlashAt(s, 0) then
      assert OccursAt(s, "\\/", 0);
      "/" + UrlUnescape(s[2..])
    else
      ContainsTail(s, "\\/");
      [s[0]] + UrlUnescape(s[1..])
  }

  /** Reference definition: `s` with every backslash that immediately
      precedes a slash deleted, position by position. */
  function DropEscapingBackslashes(s: string): string {
    if s == [] then [] else (if EscapedSlashAt(s, 0) then [] else [s[0]]) + DropEscapingBackslashes(s[1..])
  }

  lemma {:induction false} UrlUnescapeDropsEscapingBackslashes(s: string)
    ensures UrlUnescape(s) == DropEscapingBackslashes(s)
    decreases |s|
  {
    if |s| > 0 {
      if EscapedSlashAt(s, 0) {
        var t := s[1..];
        assert !EscapedSlashAt(t, 0);
        assert t[1..] == s[2..];
        UrlUnescapeDropsEscapingBackslashes(s[2..]);
      } else {
        UrlUnescapeDropsEscapingBackslashes(s[1..]);
      }
    }
  }

  /** Un-escaping once can expose a new pair: a doubled backslash before a
      slash loses one backslash per application. */
  lemma UrlUnescapeNotIdempotent()
    ensures UrlUnescape("\\\\/") == "\\/"
    ensures UrlUnescape(UrlUnescape("\\\\/")) == "/"
  {
    var s := "\\\\/";
    assert !EscapedSlashAt(s, 0);
    assert s[1..] == "\\/";
    assert EscapedSlashAt(s[1..], 0);
    assert UrlUnescape("\\/") == "/" + UrlUnescape([]);
  }

  // ---------------------------------------------------------------------
  // Date macros
  // ---------------------------------------------------------------------

  const DateMacroOpen: string := "<!date^"

  predicate IsDigit(c: char) {
    '0' <= c <= '9'
  }

  /** The text a date macro is made of: `<!date^`, a segment up to the
      separator `|`, the label, and the closing `>`. */
  function DateMacro(segment: string, fallback: string): string {
    DateMacroOpen + segment + "|" + fallback + ">"
  }

  /** The shape the date pattern accepts: the segment starts with a digit
      (the timestamp) and holds at least one more character before the
      first `|`; the label is non-empty and ends at the first `>`. */
  predicate WellFormedDateMacro(segment: string, fallback: string) {
    && |segment| >= 2
    && IsDigit(segment[0])
    && Lacks(segment, '|')
    && |fallback| >= 1
    && Lacks(fallback, '>')
  }

  /** Index of the first occurrence of `c` in `s`, if any. */
  function IndexOfChar(s: string, c: char): (r: Option<nat>)
    ensures r.Some? ==> r.value < |s| && s[r.value] == c
  {
    if s == [] then None
    else if s[0] == c then Some(0)
    else match IndexOfChar(s[1..], c)
      case None => None
      case Some(k) => Some(k + 1)
  }

  /** `IndexOfChar` finds the first occurrence, and finds none only when
      there is none. */
  lemma {:induction false} IndexOfCharFirst(s: string, c: char)
    ensures IndexOfChar(s, c).None? <==> Lacks(s, c)
    ensures IndexOfChar(s, c).Some? ==> Lacks(s[..IndexOfChar(s, c).value], c)
  {
    if s != [] && s[0] != c {
      IndexOfCharFirst(s[1..], c);
      if IndexOfChar(s[1..], c).Some? {
        var k := IndexOfChar(s[1..], c).value;
        assert s[..k + 1] == [s[0]] + s[1..][..k];
      }
    }
  }

  /** Tries the date pattern at the start of `s`; on success yields the
      length of the match and its captured label. */
  function MatchDateMacroAt(s: string): Option<(nat, string)> {
    if !StartsWith(s, DateMacroOpen) then None
    else
      var body := s[|DateMacroOpen|..];
      if body == [] || !IsDigit(body[0]) then None
      else match IndexOfChar(body, '|')
        case None => None
        case Some(q) =>
          if q < 2 then None
          else
            var after := body[q + 1..];
            match IndexOfChar(after, '>')
              case None => None
              case Some(g) =>
                if g < 1 then None
                else Some((|DateMacroOpen| + q + 1 + g + 1, after[..g]))
  }

  /** Whatever the pattern matches is a well-formed macro: the match is the
      text of a macro built from its segment and its label. */
  lemma MatchDateMacroAtSound(s: string)
    requires MatchDateMacroAt(s).Some?
    ensures var (n, fallback) := MatchDateMacroAt(s).value;
      && 12 <= n <= |s|
      && |DateMacroOpen| + 2 <= n - |fallback| - 2
      && var segment := s[|DateMacroOpen|..n - |fallback| - 2];
      && WellFormedDateMacro(segment, fallback)
      && s[..n] == DateMacro(segment, fallback)
  {
    var body := s[|DateMacroOpen|..];
    IndexOfCharFirst(body, '|');
    var q := IndexOfChar(body, '|').value;
    var after := body[q + 1..];
    IndexOfCharFirst(after, '>');
    var g := IndexOfChar(after, '>').value;
    var n := |DateMacroOpen| + q + 1 + g + 1;
    assert s[|DateMacroOpen|..n - g - 2] == body[..q];
    assert after[..g] == s[n - g - 1..n - 1];
    assert s[..n] == s[..|DateMacroOpen|] + body[..q] + "|" + after[..g] + ">";
  }

  /** The first `c` is found right after a prefix that does not hold it. */
  lemma {:induction false} IndexOfCharAfter(pre: string, c: char, post: string)
    requires Lacks(pre, c)
    ensures IndexOfChar(pre + ([c] + post), c) == Some(|pre|)
  {
    if pre != [] {
      assert (pre + ([c] + post))[1..] == pre[1..] + ([c] + post);
      IndexOfCharAfter(pre[1..], c, post);
    }
  }

  /** The pattern succeeds once the opening, the first `|` and the first
      `>` after it are where a macro needs them. */
  lemma MatchDateMacroAtFound(s: string, q: nat, g: nat)
    requires StartsWith(s, DateMacroOpen)
    requires |s| > |DateMacroOpen| && IsDigit(s[|DateMacroOpen|])
    requires 2 <= q && IndexOfChar(s[|DateMacroOpen|..], '|') == Some(q)
    requires 1 <= g && IndexOfChar(s[|DateMacroOpen|..][q + 1..], '>') == Some(g)
    ensures MatchDateMacroAt(s) == Some((|DateMacroOpen| + q + 1 + g + 1, s[|DateMacroOpen|..][q + 1..][..g]))
  {
  }

  /** How a macro followed by more text is laid out. */
  lemma DateMacroLayout(segment: string, fallback: string, rest: string)
    ensures DateMacro(segment, fallback) + rest == DateMacroOpen + (segment + ("|" + (fallback + (">" + rest))))
    ensures |DateMacro(segment, fallback)| == |DateMacroOpen| + |segment| + 1 + |fallback| + 1
  {
  }

  /** Where the separators of a laid-out macro are found. */
  lemma LaidOutMacroSeparators(segment: string, fallback: string, rest: string)
    requires WellFormedDateMacro(segment, fallback)
    ensures var s := DateMacroOpen + (segment + ("|" + (fallback + (">" + rest))));
      && StartsWith(s, DateMacroOpen)
      && s[|DateMacroOpen|..] == segment + ("|" + (fallback + (">" + rest)))
      && s[|DateMacroOpen|..][|segment| + 1..] == fallback + (">" + rest)
  {
    var after := fallback + (">" + rest);
    var body := segment + ("|" + after);
    var s := DateMacroOpen + body;
    assert s[|DateMacroOpen|..] == body;
    assert s[..|DateMacroOpen|] == DateMacroOpen;
    assert body[|segment| + 1..] == after;
  }

  /** The facts the pattern checks, established for a laid-out macro. */
  lemma LaidOutMacroChecks(s: string, segment: string, fallback: string, rest: string)
    requires WellFormedDateMacro(segment, fallback)
    requires s == DateMacroOpen + (segment + ("|" + (fallback + (">" + rest))))
    ensures StartsWith(s, DateMacroOpen)
    ensures |s| > |DateMacroOpen| && IsDigit(s[|DateMacroOpen|])
    ensures IndexOfChar(s[|DateMacroOpen|..], '|') == Some(|segment|)
    ensures IndexOfChar(s[|DateMacroOpen|..][|segment| + 1..], '>') == Some(|fallback|)
    ensures s[|DateMacroOpen|..][|segment| + 1..][..|fallback|] == fallback
  {
    LaidOutMacroSeparators(segment, fallback, rest);
    IndexOfCharAfter(segment, '|', fallback + (">" + rest));
    IndexOfCharAfter(fallback, '>', rest);
    PrefixOfConcat(fallback, ">" + rest);
  }

  lemma PrefixOfConcat(a: string, b: string)
    ensures (a + b)[..|a|] == a
  {
  }

  /** Well-formed macros are recognised, whatever follows them. */
  lemma MatchDateMacroOf(segment: string, fallback: string, rest: string)
    requires WellFormedDateMacro(segment, fallback)
    ensures MatchDateMacroAt(DateMacro(segment, fallback) + rest)
            == Some((|DateMacro(segment, fallback)|, fallback))
  {
    var s := DateMacro(segment, fallback) + rest;
    DateMacroLayout(segment, fallback, rest);
    LaidOutMacroChecks(s, segment, fallback, rest);
    MatchDateMacroAtFound(s, |segment|, |fallback|);
  }

  /** A (whole match, captured label) pair of the date pattern: the text
      of a well-formed macro, and that macro's label. */
  ghost predicate IsDateMatch(m: (string, string)) {
    exists segment :: WellFormedDateMacro(segment, m.1) && m.0 == DateMacro(segment, m.1)
  }

  /** All matches of the date pattern, left to right and non-overlapping,
      each as (whole match, captured label). */
  function FindDateMacros(s: string): (r: seq<(string, string)>)
    ensures forall k :: 0 <= k < |r| ==> IsDateMatch(r[k])
    ensures forall k :: 0 <= k < |r| ==> |r[k].0| >= 12 && '>' in r[k].0
    ensures !Contains(s, DateMacroOpen) ==> r == []
    decreases |s|
  {
    if s == [] then []
    else match MatchDateMacroAt(s)
      case Some((n, fallback)) =>
        MatchDateMacroAtSound(s);
        assert OccursAt(s, DateMacroOpen, 0);
        assert s[..n][n - 1] == '>';
        assert IsDateMatch((s[..n], fallback));
        [(s[..n], fallback)] + FindDateMacros(s[n..])
      case None =>
        ContainsTail(s, DateMacroOpen);
        FindDateMacros(s[1..])
  }

  /** Each (match, label) pair in turn: every copy of the match in the
      current text becomes the label. */
  function ReplaceEach(text: string, pairs: seq<(string, string)>): string
    requires forall k :: 0 <= k < |pairs| ==> |pairs[k].0| > 0
    decreases |pairs|
  {
    if pairs == [] then text
    else ReplaceEach(ReplaceAll(text, pairs[0].0, pairs[0].1), pairs[1..])
  }

  /** Reduces each date macro to its fallback label. */
  function ModifyGooglecalDate(text: string): (r: string)
    ensures !Contains(text, DateMacroOpen) ==> r == text
  {
    ReplaceEach(text, FindDateMacros(text))
  }

  /** `n` copies of `s` laid end to end. */
  function Repeat<T>(s: seq<T>, n: nat): seq<T> {
    if n == 0 then [] else s + Repeat(s, n - 1)
  }

  /** A match at the start is reported first, and the scan resumes after it. */
  lemma FindDateMacrosAfterMatch(s: string, n: nat, fallback: string)
    requires MatchDateMacroAt(s) == Some((n, fallback))
    ensures n <= |s|
    ensures FindDateMacros(s) == [(s[..n], fallback)] + FindDateMacros(s[n..])
  {
    MatchDateMacroAtSound(s);
  }

  /** Where no match starts at the first character, the scan moves on by
      one character and reports nothing for it. */
  lemma FindDateMacrosSkip(s: string)
    requires s != [] && MatchDateMacroAt(s).None?
    ensures FindDateMacros(s) == FindDateMacros(s[1..])
  {
  }

  /** No match starts at a character other than `<`. */
  lemma NoMatchWithoutOpen(w: string)
    requires w != [] && w[0] != '<'
    ensures MatchDateMacroAt(w).None?
  {
    if |DateMacroOpen| <= |w| {
      assert w[..|DateMacroOpen|][0] == w[0];
    }
  }

  /** Text without `<` before the first macro contributes no matches. */
  lemma {:induction false} FindDateMacrosAfterPlain(pre: string, s: string)
    requires Lacks(pre, '<')
    ensures FindDateMacros(pre + s) == FindDateMacros(s)
    decreases |pre|
  {
    if pre != [] {
      var w := pre + s;
      assert w[0] == pre[0];
      NoMatchWithoutOpen(w);
      FindDateMacrosSkip(w);
      assert w[1..] == pre[1..] + s;
      FindDateMacrosAfterPlain(pre[1..], s);
    } else {
      assert pre + s == s;
    }
  }

  /** A well-formed macro at the start is reported first. */
  lemma FindDateMacrosAfterMacro(segment: string, fallback: string, rest: string)
    requires WellFormedDateMacro(segment, fallback)
    ensures FindDateMacros(DateMacro(segment, fallback) + rest)
            == [(DateMacro(segment, fallback), fallback)] + FindDateMacros(rest)
  {
    var m := DateMacro(segment, fallback);
    MatchDateMacroOf(segment, fallback, rest);
    FindDateMacrosAfterMatch(m + rest, |m|, fallback);
    assert (m + rest)[..|m|] == m;
    assert (m + rest)[|m|..] == rest;
  }

  /** A scan that reports `m` whenever the text starts with it, and
      nothing for the empty text, reports one match per copy of `m`. */
  lemma {:induction false} ScanRepeat(scan: string -> seq<(string, string)>, m: string, fallback: string, n: nat)
    requires scan([]) == []
    requires forall s :: StartsWith(s, m) ==> scan(s) == [(m, fallback)] + scan(s[|m|..])
    ensures scan(Repeat(m, n)) == Repeat([(m, fallback)], n)
  {
    if n > 0 {
      ScanRepeat(scan, m, fallback, n - 1);
      var rest := Repeat(m, n - 1);
      assert Repeat(m, n) == m + rest;
      assert (m + rest)[..|m|] == m;
      assert (m + rest)[|m|..] == rest;
      assert Repeat([(m, fallback)], n) == [(m, fallback)] + Repeat([(m, fallback)], n - 1);
    }
  }

  lemma FindRepeatedMacros(segment: string, fallback: string, n: nat)
    requires WellFormedDateMacro(segment, fallback)
    ensures FindDateMacros(Repeat(DateMacro(segment, fallback), n))
            == Repeat([(DateMacro(segment, fallback), fallback)], n)
  {
    var m := DateMacro(segment, fallback);
    forall s | StartsWith(s, m)
      ensures FindDateMacros(s) == [(m, fallback)] + FindDateMacros(s[|m|..])
    {
      var rest := s[|m|..];
      assert s == m + rest;
      FindDateMacrosAfterMacro(segment, fallback, rest);
    }
    ScanRepeat(FindDateMacros, m, fallback, n);
  }

  lemma {:induction false} ReplaceRepeated(m: string, fallback: string, n: nat)
    requires |m| > 0
    ensures ReplaceAll(Repeat(m, n), m, fallback) == Repeat(fallback, n)
  {
    if n > 0 {
      var rest := Repeat(m, n - 1);
      assert (m + rest)[..|m|] == m;
      assert (m + rest)[|m|..] == rest;
      ReplaceRepeated(m, fallback, n - 1);
    }
  }

  lemma {:induction false} RepeatAvoidsChar(s: string, c: char, n: nat)
    requires Lacks(s, c)
    ensures Lacks(Repeat(s, n), c)
  {
    if n > 0 {
      RepeatAvoidsChar(s, c, n - 1);
      assert Repeat(s, n) == s + Repeat(s, n - 1);
    }
  }

  /** Once no pattern of the remaining pairs can occur, they change nothing. */
  lemma {:induction false} ReplaceEachWithoutClose(text: string, pairs: seq<(string, string)>)
    requires forall k :: 0 <= k < |pairs| ==> |pairs[k].0| > 0 && '>' in pairs[k].0
    requires Lacks(text, '>')
    ensures ReplaceEach(text, pairs) == text
  {
    if pairs != [] {
      NotContainsWithoutChar(text, pairs[0].0, '>');
      ReplaceEachWithoutClose(text, pairs[1..]);
    }
  }

  /** Every copy of a macro is reduced to its label, however many times it
      is repeated. */
  lemma ModifyRepeatedMacro(segment: string, fallback: string, n: nat)
    requires WellFormedDateMacro(segment, fallback)
    ensures ModifyGooglecalDate(Repeat(DateMacro(segment, fallback), n)) == Repeat(fallback, n)
  {
    var m := DateMacro(segment, fallback);
    FindRepeatedMacros(segment, fallback, n);
    if n > 0 {
      var pairs := Repeat([(m, fallback)], n);
      assert pairs[0] == (m, fallback);
      ReplaceRepeated(m, fallback, n);
      RepeatAvoidsChar(fallback, '>', n);
      assert '>' in m by {
        assert m[|m| - 1] == '>';
      }
      ReplaceEachWithoutClose(Repeat(fallback, n), pairs[1..]);
    }
  }

  lemma RepeatOnce<T>(s: seq<T>)
    ensures Repeat(s, 1) == s
  {
    assert Repeat(s, 1) == s + Repeat(s, 0);
  }

  /** The macro of a calendar event reduces to its fallback label. */
  lemma ModifyCalendarExample()
    ensures ModifyGooglecalDate("<!date^1700000000^{date}|Jan 1>") == "Jan 1"
  {
    var segment := "1700000000^{date}";
    var fallback := "Jan 1";
    assert WellFormedDateMacro(segment, fallback);
    ModifyRepeatedMacro(segment, fallback, 1);
    RepeatOnce(DateMacro(segment, fallback));
    RepeatOnce(fallback);
    CalendarMacroText();
  }

  lemma CalendarMacroText()
    ensures DateMacro("1700000000^{date}", "Jan 1") == "<!date^1700000000^{date}|Jan 1>"
  {
  }

  /** Each match replaces every copy of itself, so an earlier match can
      consume a copy nested inside a later one. A macro `m` followed by
      `<!date^`, a digit and `m` again holds two matches: `m`, and the
      whole rest, whose segment swallows the copy of `m`. Replacing `m`
      also rewrites that copy, so the second match is never found again
      and `<!date^` and the digit survive between the two labels. */
  lemma ModifyNestedMacro(segment: string, fallback: string, d: char)
    requires WellFormedDateMacro(segment, fallback) && IsDigit(d) && d != segment[0]
    ensures var m := DateMacro(segment, fallback);
            var outer := DateMacroOpen + [d] + m;
            && FindDateMacros(m + outer) == [(m, fallback), (outer, fallback)]
            && ModifyGooglecalDate(m + outer) == fallback + (DateMacroOpen + [d]) + fallback
  {
    var m := DateMacro(segment, fallback);
    var mid := DateMacroOpen + [d];
    var outer := mid + m;
    var wide := [d] + DateMacroOpen + segment;
    NestedMacroIsMacro(segment, fallback, d);
    FindDateMacrosAfterMacro(segment, fallback, outer);
    FindDateMacrosAfterMacro(wide, fallback, "");
    assert outer + "" == outer;
    var pairs := [(m, fallback), (outer, fallback)];
    assert FindDateMacros(m + outer) == pairs;
    NestedMacroReplace(segment, fallback, d);
    var once := fallback + mid + fallback;
    assert outer[|outer| - 1] == '>';
    OpenWithDigit(d);
    LacksConcat(fallback, mid, '>');
    LacksConcat(fallback + mid, fallback, '>');
    NotContainsWithoutChar(once, outer, '>');
    assert ReplaceEach(m + outer, pairs) == ReplaceEach(once, pairs[1..]);
    assert ReplaceEach(once, pairs[1..]) == ReplaceEach(once, []);
  }

  /** The smallest such text: `<!date^2x|L>` then `<!date^1<!date^2x|L>`
      reduces to `L<!date^1L`, not to two labels. */
  lemma ModifyOverlappingExample()
    ensures ModifyGooglecalDate("<!date^2x|L><!date^1<!date^2x|L>") == "L<!date^1L"
  {
    assert WellFormedDateMacro("2x", "L");
    ModifyNestedMacro("2x", "L", '1');
    OverlappingExampleText();
  }

  lemma OverlappingExampleText()
    ensures var m := DateMacro("2x", "L");
            && m + (DateMacroOpen + ['1'] + m) == "<!date^2x|L><!date^1<!date^2x|L>"
            && "L" + (DateMacroOpen + ['1']) + "L" == "L<!date^1L"
  {
  }

  /** The text after the first macro is itself a macro, whose segment
      holds the digit, `<!date^` and the first macro's segment. */
  lemma NestedMacroIsMacro(segment: string, fallback: string, d: char)
    requires WellFormedDateMacro(segment, fallback) && IsDigit(d)
    ensures WellFormedDateMacro([d] + DateMacroOpen + segment, fallback)
    ensures DateMacroOpen + [d] + DateMacro(segment, fallback) == DateMacro([d] + DateMacroOpen + segment, fallback)
  {
    LacksConcat([d], DateMacroOpen, '|');
    LacksConcat([d] + DateMacroOpen, segment, '|');
  }

  /** `<!date^` and a digit: eight characters, no `>`, and no `<` after
      the first. */
  lemma OpenWithDigit(d: char)
    requires IsDigit(d)
    ensures var mid := DateMacroOpen + [d];
            && |mid| == 8 && mid[7] == d && Lacks(mid, '>')
            && forall i :: 1 <= i < 8 ==> mid[i] != '<'
  {
  }

  /** Inside `<!date^`, a digit and a macro, the macro occurs nowhere
      before its own position when the digit differs from the first
      character of its segment. */
  lemma NestedMacroFirstAt(segment: string, fallback: string, d: char)
    requires WellFormedDateMacro(segment, fallback) && IsDigit(d) && d != segment[0]
    ensures var m, mid := DateMacro(segment, fallback), DateMacroOpen + [d];
            forall i :: 0 <= i < |mid| ==> !OccursAt(mid + m + "", m, i)
  {
    var m := DateMacro(segment, fallback);
    var mid := DateMacroOpen + [d];
    var w := mid + m + "";
    OpenWithDigit(d);
    assert m[0] == '<' && m[7] == segment[0];
    forall i | 0 <= i < |mid|
      ensures !OccursAt(w, m, i)
    {
      if i + |m| <= |w| {
        if i == 0 {
          assert w[..|m|][7] == d;
        } else {
          assert w[i..i + |m|][0] == mid[i];
        }
      }
    }
  }

  /** Replacing the first macro rewrites its copy inside the second too. */
  lemma NestedMacroReplace(segment: string, fallback: string, d: char)
    requires WellFormedDateMacro(segment, fallback) && IsDigit(d) && d != segment[0]
    ensures var m := DateMacro(segment, fallback);
            ReplaceAll(m + (DateMacroOpen + [d] + m), m, fallback) == fallback + (DateMacroOpen + [d]) + fallback
  {
    var m := DateMacro(segment, fallback);
    var mid := DateMacroOpen + [d];
    var inner := ReplaceAll(mid + m, m, fallback);
    assert inner == mid + fallback by {
      NestedMacroFirstAt(segment, fallback, d);
      ReplaceAllLeftmost(mid, m, "", fallback);
      assert mid + m + "" == mid + m;
      assert ReplaceAll("", m, fallback) == "";
      assert mid + fallback + "" == mid + fallback;
    }
    assert ReplaceAll(m + (mid + m), m, fallback) == fallback + inner by {
      ReplaceAllLeftmost("", m, mid + m, fallback);
      assert "" + m + (mid + m) == m + (mid + m);
      assert "" + fallback + inner == fallback + inner;
    }
  }
}
