/** The string helpers of `SecurityUtils`: the HTML escaper, the e-mail and
    password shape checks and the identifier mask. All of them are pure. */
module Security {
  import opened Common

  // ---------------------------------------------------------------------
  // sanitize: six global replacements applied one after the other
  // ---------------------------------------------------------------------

  /** `s.replace(/c/g, rep)`: every occurrence of the character `c` replaced
      by the string `rep`, everything else kept in place. */
  function ReplaceAll(s: string, c: char, rep: string): (r: string)
    ensures c !in rep ==> c !in r
    ensures c !in s ==> r == s
  {
    if s == [] then []
    else (if s[0] == c then rep else [s[0]]) + ReplaceAll(s[1..], c, rep)
  }

  /** The characters the escaper rewrites. */
  predicate Special(c: char)
  {
    c == '&' || c == '<' || c == '>' || c == '"' || c == '\'' || c == '/'
  }

  /** The characters that may not survive escaping: all special ones but `&`,
      which survives as the first character of each entity. */
  predicate Markup(c: char)
  {
    c == '<' || c == '>' || c == '"' || c == '\'' || c == '/'
  }

  /** `SecurityUtils.sanitize` on a string: `&` first, then `<`, `>`, `"`,
      `'` and `/`. */
  function Sanitize(input: string): string
  {
    var s1 := ReplaceAll(input, '&', "&amp;");
    var s2 := ReplaceAll(s1, '<', "&lt;");
    var s3 := ReplaceAll(s2, '>', "&gt;");
    var s4 := ReplaceAll(s3, '"', "&quot;");
    var s5 := ReplaceAll(s4, '\'', "&#x27;");
    ReplaceAll(s5, '/', "&#x2F;")
  }

  /** The entity that stands for one character, or the character itself. */
  function EscapeChar(c: char): string
  {
    if c == '&' then "&amp;"
    else if c == '<' then "&lt;"
    else if c == '>' then "&gt;"
    else if c == '"' then "&quot;"
    else if c == '\'' then "&#x27;"
    else if c == '/' then "&#x2F;"
    else [c]
  }

  /** Reference definition of escaping: each character mapped on its own. */
  function EscapeAll(s: string): string
  {
    if s == [] then [] else EscapeChar(s[0]) + EscapeAll(s[1..])
  }

  /** `t` begins with one of the six entities the escaper produces. */
  predicate StartsWithEntity(t: string)
  {
    "&amp;" <= t || "&lt;" <= t || "&gt;" <= t || "&quot;" <= t || "&#x27;" <= t || "&#x2F;" <= t
  }

  /** Decoding of the six entities, as an HTML reader does; any other
      character is read as itself. */
  function Unescape(s: string): string
    decreases |s|
  {
    if s == [] then []
    else if "&amp;" <= s then ['&'] + Unescape(s[5..])
    else if "&lt;" <= s then ['<'] + Unescape(s[4..])
    else if "&gt;" <= s then ['>'] + Unescape(s[4..])
    else if "&quot;" <= s then ['"'] + Unescape(s[6..])
    else if "&#x27;" <= s then ['\''] + Unescape(s[6..])
    else if "&#x2F;" <= s then ['/'] + Unescape(s[6..])
    else [s[0]] + Unescape(s[1..])
  }

  lemma {:induction false} ReplaceAllAppend(s: string, t: string, c: char, rep: string)
    ensures ReplaceAll(s + t, c, rep) == ReplaceAll(s, c, rep) + ReplaceAll(t, c, rep)
  {
    if s == [] {
      assert s + t == t;
    } else {
      assert (s + t)[0] == s[0];
      assert (s + t)[1..] == s[1..] + t;
      ReplaceAllAppend(s[1..], t, c, rep);
    }
  }

  lemma ReplaceAllChar(x: char, c: char, rep: string)
    ensures ReplaceAll([x], c, rep) == if x == c then rep else [x]
  {
    assert [x][1..] == [];
  }

  /** Escaping distributes over concatenation. */
  lemma SanitizeAppend(s: string, t: string)
    ensures Sanitize(s + t) == Sanitize(s) + Sanitize(t)
  {
    var s1, t1 := ReplaceAll(s, '&', "&amp;"), ReplaceAll(t, '&', "&amp;");
    ReplaceAllAppend(s, t, '&', "&amp;");
    var s2, t2 := ReplaceAll(s1, '<', "&lt;"), ReplaceAll(t1, '<', "&lt;");
    ReplaceAllAppend(s1, t1, '<', "&lt;");
    var s3, t3 := ReplaceAll(s2, '>', "&gt;"), ReplaceAll(t2, '>', "&gt;");
    ReplaceAllAppend(s2, t2, '>', "&gt;");
    var s4, t4 := ReplaceAll(s3, '"', "&quot;"), ReplaceAll(t3, '"', "&quot;");
    ReplaceAllAppend(s3, t3, '"', "&quot;");
    var s5, t5 := ReplaceAll(s4, '\'', "&#x27;"), ReplaceAll(t4, '\'', "&#x27;");
    ReplaceAllAppend(s4, t4, '\'', "&#x27;");
    ReplaceAllAppend(s5, t5, '/', "&#x2F;");
  }

  /** On a single character the chain of replacements is `EscapeChar`: the
      entity one step introduces is never touched by a later step. */
  lemma SanitizeChar(x: char)
    ensures Sanitize([x]) == EscapeChar(x)
  {
    ReplaceAllChar(x, '&', "&amp;");
    ReplaceAllChar(x, '<', "&lt;");
    ReplaceAllChar(x, '>', "&gt;");
    ReplaceAllChar(x, '"', "&quot;");
    ReplaceAllChar(x, '\'', "&#x27;");
    ReplaceAllChar(x, '/', "&#x2F;");
    if x == '&' {
      EntityUntouched("&amp;", 1);
    } else if x == '<' {
      EntityUntouched("&lt;", 2);
    } else if x == '>' {
      EntityUntouched("&gt;", 3);
    } else if x == '"' {
      EntityUntouched("&quot;", 4);
    } else if x == '\'' {
      EntityUntouched("&#x27;", 5);
    }
  }

  /** The steps after step `k` of the chain leave `e` alone when `e` holds
      none of the characters they replace. */
  lemma EntityUntouched(e: string, k: nat)
    requires 1 <= k <= 5
    requires k < 2 ==> '<' !in e
    requires k < 3 ==> '>' !in e
    requires k < 4 ==> '"' !in e
    requires k < 5 ==> '\'' !in e
    requires '/' !in e
    ensures k <= 1 ==> ReplaceAll(ReplaceAll(ReplaceAll(ReplaceAll(ReplaceAll(e, '<', "&lt;"), '>', "&gt;"), '"', "&quot;"), '\'', "&#x27;"), '/', "&#x2F;") == e
    ensures k <= 2 ==> ReplaceAll(ReplaceAll(ReplaceAll(ReplaceAll(e, '>', "&gt;"), '"', "&quot;"), '\'', "&#x27;"), '/', "&#x2F;") == e
    ensures k <= 3 ==> ReplaceAll(ReplaceAll(ReplaceAll(e, '"', "&quot;"), '\'', "&#x27;"), '/', "&#x2F;") == e
    ensures k <= 4 ==> ReplaceAll(ReplaceAll(e, '\'', "&#x27;"), '/', "&#x2F;") == e
    ensures ReplaceAll(e, '/', "&#x2F;") == e
  {
  }

  /** The chained replacement is a per-character map: it equals the
      reference `EscapeAll`. */
  lemma {:induction false} SanitizeIsEscapeAll(s: string)
    ensures Sanitize(s) == EscapeAll(s)
  {
    if s != [] {
      assert s == [s[0]] + s[1..];
      SanitizeAppend([s[0]], s[1..]);
      SanitizeChar(s[0]);
      SanitizeIsEscapeAll(s[1..]);
    }
  }

  lemma {:induction false} EscapeAllNoMarkup(s: string)
    ensures forall i :: 0 <= i < |EscapeAll(s)| ==> !Markup(EscapeAll(s)[i])
  {
    if s != [] {
      var e, rest := EscapeChar(s[0]), EscapeAll(s[1..]);
      EscapeAllNoMarkup(s[1..]);
      assert forall i :: 0 <= i < |e| ==> !Markup(e[i]);
      var r := e + rest;
      forall i | 0 <= i < |r| ensures !Markup(r[i]) {
        if i < |e| {
          assert r[i] == e[i];
        } else {
          assert r[i] == rest[i - |e|];
        }
      }
    }
  }

  lemma {:induction false} EscapeAllLength(s: string)
    ensures |EscapeAll(s)| >= |s|
    ensures EscapeAll(s) == s <==> forall i :: 0 <= i < |s| ==> !Special(s[i])
  {
    if s != [] {
      EscapeAllLength(s[1..]);
      if Special(s[0]) {
        assert |EscapeChar(s[0])| >= 4;
        assert EscapeAll(s) != s;
      } else {
        assert EscapeAll(s) == [s[0]] + EscapeAll(s[1..]);
        if forall i :: 0 <= i < |s| ==> !Special(s[i]) {
          forall i | 0 <= i < |s[1..]| ensures !Special(s[1..][i]) {
            assert s[1..][i] == s[i + 1];
          }
        } else {
          var k :| 0 <= k < |s| && Special(s[k]);
          assert s[1..][k - 1] == s[k];
          assert EscapeAll(s[1..]) != s[1..];
        }
      }
    }
  }

  lemma {:induction false} EscapeAllEntities(s: string)
    ensures forall i :: 0 <= i < |EscapeAll(s)| && EscapeAll(s)[i] == '&' ==>
      StartsWithEntity(EscapeAll(s)[i..])
  {
    if s != [] {
      var e, rest := EscapeChar(s[0]), EscapeAll(s[1..]);
      var r := e + rest;
      EscapeAllEntities(s[1..]);
      forall i | 0 <= i < |r| && r[i] == '&'
        ensures StartsWithEntity(r[i..])
      {
        if i < |e| {
          assert e[i] == '&';
          assert Special(s[0]);
          assert i == 0;
          assert r[i..] == r;
          assert e <= r;
          if s[0] == '&' {
            assert "&amp;" <= r;
          } else if s[0] == '<' {
            assert "&lt;" <= r;
          } else if s[0] == '>' {
            assert "&gt;" <= r;
          } else if s[0] == '"' {
            assert "&quot;" <= r;
          } else if s[0] == '\'' {
            assert "&#x27;" <= r;
          } else {
            assert "&#x2F;" <= r;
          }
        } else {
          assert r[i] == rest[i - |e|];
          assert r[i..] == rest[i - |e|..];
        }
      }
    }
  }

  lemma {:induction false} UnescapeEscapeAll(s: string)
    ensures Unescape(EscapeAll(s)) == s
  {
    if s != [] {
      var c, rest := s[0], EscapeAll(s[1..]);
      var e := EscapeChar(c);
      var r := e + rest;
      UnescapeEscapeAll(s[1..]);
      assert r[..|e|] == e;
      assert r[|e|..] == rest;
      assert s == [c] + s[1..];
      if !Special(c) {
        assert r[0] == c;
        assert !StartsWithEntity(r);
        assert Unescape(r) == [c] + Unescape(r[1..]);
      } else if c == '&' {
        assert "&amp;" <= r;
        assert Unescape(r) == ['&'] + Unescape(r[5..]);
      } else if c == '<' {
        assert !("&amp;" <= r) by { assert r[1] == 'l'; }
        assert "&lt;" <= r;
        assert Unescape(r) == ['<'] + Unescape(r[4..]);
      } else if c == '>' {
        assert !("&amp;" <= r) && !("&lt;" <= r) by { assert r[1] == 'g'; }
        assert "&gt;" <= r;
        assert Unescape(r) == ['>'] + Unescape(r[4..]);
      } else if c == '"' {
        assert !("&amp;" <= r) && !("&lt;" <= r) && !("&gt;" <= r) by { assert r[1] == 'q'; }
        assert "&quot;" <= r;
        assert Unescape(r) == ['"'] + Unescape(r[6..]);
      } else if c == '\'' {
        assert !("&amp;" <= r) && !("&lt;" <= r) && !("&gt;" <= r) && !("&quot;" <= r) by { assert r[1] == '#'; }
        assert "&#x27;" <= r;
        assert Unescape(r) == ['\''] + Unescape(r[6..]);
      } else {
        assert !("&amp;" <= r) && !("&lt;" <= r) && !("&gt;" <= r) && !("&quot;" <= r) by { assert r[1] == '#'; }
        assert !("&#x27;" <= r) by { assert r[4] == 'F'; }
        assert "&#x2F;" <= r;
        assert Unescape(r) == ['/'] + Unescape(r[6..]);
      }
    }
  }

  /** Escaping as written: no markup character is left, every `&` opens one
      of the six entities, the output is never shorter than the input, and the
      output equals the input exactly when the input has no special
      character. */
  lemma SanitizeProperties(s: string)
    ensures var r := Sanitize(s);
      && (forall i :: 0 <= i < |r| ==> !Markup(r[i]))
      && (forall i :: 0 <= i < |r| && r[i] == '&' ==> StartsWithEntity(r[i..]))
      && |r| >= |s|
      && (r == s <==> forall i :: 0 <= i < |s| ==> !Special(s[i]))
  {
    SanitizeIsEscapeAll(s);
    EscapeAllNoMarkup(s);
    EscapeAllEntities(s);
    EscapeAllLength(s);
  }

  /** Reading the escaped text back as HTML gives the input: escaping loses
      nothing. */
  lemma SanitizeRoundTrip(s: string)
    ensures Unescape(Sanitize(s)) == s
  {
    SanitizeIsEscapeAll(s);
    UnescapeEscapeAll(s);
  }

  // ---------------------------------------------------------------------
  // isValidEmail: /^[^\s@]+@[^\s@]+\.[^\s@]+$/ and at most 254 characters
  // ---------------------------------------------------------------------

  /** ECMAScript `\s`: the WhiteSpace and LineTerminator code points. */
  predicate IsJsWhitespace(c: char)
  {
    || c == '\t' || c == '\n' || c == '\U{000B}' || c == '\U{000C}' || c == '\r'
    || c == ' ' || c == '\U{00A0}' || c == '\U{1680}'
    || ('\U{2000}' <= c <= '\U{200A}')
    || c == '\U{2028}' || c == '\U{2029}' || c == '\U{202F}' || c == '\U{205F}'
    || c == '\U{3000}' || c == '\U{FEFF}'
  }

  /** The character class `[^\s@]`. */
  predicate AtomChar(c: char)
  {
    !IsJsWhitespace(c) && c != '@'
  }

  predicate AllAtoms(s: string)
  {
    forall i :: 0 <= i < |s| ==> AtomChar(s[i])
  }

  /** The language of the regular expression, read off its pieces:
      `e = L + "@" + D + "." + T` with `L`, `D`, `T` non-empty runs of `[^\s@]`. */
  ghost predicate EmailShape(e: string)
  {
    exists i, j :: 0 < i && i + 1 < j && j + 1 < |e| && e[i] == '@' && e[j] == '.' &&
      AllAtoms(e[..i]) && AllAtoms(e[i + 1..j]) && AllAtoms(e[j + 1..])
  }

  /** States of a deterministic automaton for the regular expression: before
      `@` with nothing or something read, after `@` with nothing or something
      read, just after a `.` that has something before it, inside the
      non-empty part after such a `.`, or rejected. */
  datatype EmailState = Local0 | Local | Domain0 | Domain | Dot | Tail | Dead

  function Step(q: EmailState, c: char): EmailState
  {
    if IsJsWhitespace(c) then Dead
    else match q
      case Local0 => if c == '@' then Dead else Local
      case Local => if c == '@' then Domain0 else Local
      case Domain0 => if c == '@' then Dead else Domain
      case Domain => if c == '@' then Dead else if c == '.' then Dot else Domain
      case Dot => if c == '@' then Dead else Tail
      case Tail => if c == '@' then Dead else Tail
      case Dead => Dead
  }

  function Run(q: EmailState, s: string): EmailState
    decreases |s|
  {
    if s == [] then q else Run(Step(q, s[0]), s[1..])
  }

  /** `regex.test(email)` for the regular expression above. */
  predicate EmailRegexTest(e: string)
  {
    Run(Local0, e) == Tail
  }

  /** There is a `.` at a position in `[lo, |s| - 1)`: a `.` with at least
      `lo` characters before it and at least one after it. */
  ghost predicate HasDotFrom(s: string, lo: nat)
  {
    exists j :: lo <= j < |s| - 1 && s[j] == '.'
  }

  /** What may follow the `@`: `D.T` with `D` and `T` non-empty. */
  ghost predicate DomainPart(t: string)
  {
    AllAtoms(t) && HasDotFrom(t, 1)
  }

  /** What may follow the first character: an all-atom rest of the local
      part, `@`, and a domain part. */
  ghost predicate LocalAccepts(s: string)
  {
    exists i :: 0 <= i < |s| && s[i] == '@' && AllAtoms(s[..i]) && DomainPart(s[i + 1..])
  }

  lemma AllAtomsCons(s: string)
    requires s != []
    ensures AllAtoms(s) <==> AtomChar(s[0]) && AllAtoms(s[1..])
  {
    if AtomChar(s[0]) && AllAtoms(s[1..]) {
      forall i | 0 <= i < |s| ensures AtomChar(s[i]) {
        if i > 0 { assert s[i] == s[1..][i - 1]; }
      }
    }
  }

  lemma HasDotFromCons(s: string, lo: nat)
    requires s != [] && lo > 0
    ensures HasDotFrom(s, lo) <==> HasDotFrom(s[1..], lo - 1)
  {
    if HasDotFrom(s, lo) {
      var j :| lo <= j < |s| - 1 && s[j] == '.';
      assert s[1..][j - 1] == s[j];
    }
    if HasDotFrom(s[1..], lo - 1) {
      var j :| lo - 1 <= j < |s[1..]| - 1 && s[1..][j] == '.';
      assert s[j + 1] == s[1..][j];
    }
  }

  lemma AllAtomsSlice(s: string, lo: nat, hi: nat)
    requires lo <= hi <= |s| && AllAtoms(s)
    ensures AllAtoms(s[lo..hi])
  {
    forall k | 0 <= k < hi - lo ensures AtomChar(s[lo..hi][k]) {
      assert s[lo..hi][k] == s[lo + k];
    }
  }

  lemma {:induction false} RunDead(s: string)
    ensures Run(Dead, s) == Dead
  {
    if s != [] {
      RunDead(s[1..]);
    }
  }

  lemma {:induction false} RunTail(s: string)
    ensures Run(Tail, s) == Tail <==> AllAtoms(s)
  {
    if s != [] {
      RunTail(s[1..]);
      RunDead(s[1..]);
      AllAtomsCons(s);
    }
  }

  lemma RunDot(s: string)
    ensures Run(Dot, s) == Tail <==> s != [] && AllAtoms(s)
  {
    if s != [] {
      RunTail(s[1..]);
      RunDead(s[1..]);
      AllAtomsCons(s);
    }
  }

  lemma {:induction false} RunDomain(s: string)
    ensures Run(Domain, s) == Tail <==> AllAtoms(s) && HasDotFrom(s, 0)
  {
    if s != [] {
      var c, rest := s[0], s[1..];
      RunDead(rest);
      AllAtomsCons(s);
      if AtomChar(c) {
        if c == '.' {
          RunDot(rest);
          if rest != [] {
            assert 0 < |s| - 1 && s[0] == '.';
          }
        } else {
          RunDomain(rest);
          if HasDotFrom(s, 0) {
            var j :| 0 <= j < |s| - 1 && s[j] == '.';
            assert rest[j - 1] == s[j];
          }
          if HasDotFrom(rest, 0) {
            var j :| 0 <= j < |rest| - 1 && rest[j] == '.';
            assert s[j + 1] == rest[j];
          }
        }
      }
    }
  }

  lemma RunDomain0(s: string)
    ensures Run(Domain0, s) == Tail <==> DomainPart(s)
  {
    if s != [] {
      RunDead(s[1..]);
      AllAtomsCons(s);
      RunDomain(s[1..]);
      HasDotFromCons(s, 1);
    }
  }

  /** Moving the first character of a non-empty local part out of the
      witness, and back. */
  lemma LocalAcceptsCons(s: string)
    requires s != [] && AtomChar(s[0])
    ensures LocalAccepts(s) <==> LocalAccepts(s[1..])
  {
    if LocalAccepts(s) {
      var i :| 0 <= i < |s| && s[i] == '@' && AllAtoms(s[..i]) && DomainPart(s[i + 1..]);
      LocalAcceptsDrop(s, i);
    }
    if LocalAccepts(s[1..]) {
      var i :| 0 <= i < |s[1..]| && s[1..][i] == '@' && AllAtoms(s[1..][..i]) && DomainPart(s[1..][i + 1..]);
      LocalAcceptsPush(s, i);
    }
  }

  lemma LocalAcceptsDrop(s: string, i: nat)
    requires s != [] && AtomChar(s[0])
    requires i < |s| && s[i] == '@' && AllAtoms(s[..i]) && DomainPart(s[i + 1..])
    ensures LocalAccepts(s[1..])
  {
    var rest := s[1..];
    var pre := s[..i];
    AllAtomsCons(pre);
    assert pre[1..] == rest[..i - 1];
    assert rest[i - 1 + 1..] == s[i + 1..];
    assert rest[i - 1] == '@';
  }

  lemma LocalAcceptsPush(s: string, i: nat)
    requires s != [] && AtomChar(s[0])
    requires i < |s| - 1 && s[i + 1] == '@' && AllAtoms(s[1..][..i]) && DomainPart(s[1..][i + 1..])
    ensures LocalAccepts(s)
  {
    var rest := s[1..];
    var pre := s[..i + 1];
    assert pre[1..] == rest[..i];
    AllAtomsCons(pre);
    assert s[i + 1 + 1..] == rest[i + 1..];
  }

  lemma {:induction false} RunLocal(s: string)
    ensures Run(Local, s) == Tail <==> LocalAccepts(s)
  {
    if s != [] {
      var c, rest := s[0], s[1..];
      RunDead(rest);
      if !AtomChar(c) {
        forall i | 0 < i < |s| ensures !AllAtoms(s[..i]) {
          assert s[..i][0] == c;
        }
        if c == '@' {
          RunDomain0(rest);
          assert s[..0] == [];
          assert s[0 + 1..] == rest;
        }
      } else {
        RunLocal(rest);
        LocalAcceptsCons(s);
      }
    }
  }

  /** The automaton accepts exactly the strings of the form `L@D.T`. */
  lemma EmailRegexTestIsShape(e: string)
    ensures EmailRegexTest(e) <==> EmailShape(e)
  {
    if e != [] {
      var rest := e[1..];
      RunDead(rest);
      RunLocal(rest);
      if EmailRegexTest(e) {
        ShapeFromAccept(e);
      }
      if EmailShape(e) {
        AcceptFromShape(e);
      }
    }
  }

  lemma ShapeFromAccept(e: string)
    requires e != [] && AtomChar(e[0]) && LocalAccepts(e[1..])
    ensures EmailShape(e)
  {
    var rest := e[1..];
    var i :| 0 <= i < |rest| && rest[i] == '@' && AllAtoms(rest[..i]) && DomainPart(rest[i + 1..]);
    var post := rest[i + 1..];
    var j :| 1 <= j < |post| - 1 && post[j] == '.';
    assert rest[..i] == e[1..i + 1];
    assert post == e[i + 2..];
    assert e[i + 2 + j] == post[j];
    ShapeFromParts(e, i, j);
  }

  lemma ShapeFromParts(e: string, i: nat, j: nat)
    requires e != [] && AtomChar(e[0])
    requires i < |e| - 1 && e[i + 1] == '@' && AllAtoms(e[1..i + 1])
    requires 1 <= j < |e| - i - 3 && e[i + 2 + j] == '.' && AllAtoms(e[i + 2..])
    ensures EmailShape(e)
  {
    var a, d := i + 1, i + 2 + j;
    assert AllAtoms(e[..a]) by {
      assert e[..a][1..] == e[1..i + 1];
      AllAtomsCons(e[..a]);
    }
    var post := e[i + 2..];
    assert AllAtoms(e[a + 1..d]) by {
      assert e[a + 1..d] == post[..j];
      AllAtomsSlice(post, 0, j);
    }
    assert AllAtoms(e[d + 1..]) by {
      assert e[d + 1..] == post[j + 1..];
      AllAtomsSlice(post, j + 1, |post|);
    }
  }

  /** Two all-atom runs around one more atom make an all-atom run. */
  lemma AllAtomsJoin(x: string, c: char, y: string)
    requires AllAtoms(x) && AtomChar(c) && AllAtoms(y)
    ensures AllAtoms(x + [c] + y)
  {
    var s := x + [c] + y;
    forall k | 0 <= k < |s| ensures AtomChar(s[k]) {
      if k < |x| {
        assert s[k] == x[k];
      } else if k > |x| {
        assert s[k] == y[k - |x| - 1];
      }
    }
  }

  lemma AcceptFromShape(e: string)
    requires EmailShape(e)
    ensures e != [] && AtomChar(e[0]) && LocalAccepts(e[1..])
  {
    var a, d :| 0 < a && a + 1 < d && d + 1 < |e| && e[a] == '@' && e[d] == '.' &&
      AllAtoms(e[..a]) && AllAtoms(e[a + 1..d]) && AllAtoms(e[d + 1..]);
    AcceptFromParts(e, a, d);
  }

  lemma AcceptFromParts(e: string, a: nat, d: nat)
    requires 0 < a && a + 1 < d && d + 1 < |e| && e[a] == '@' && e[d] == '.'
    requires AllAtoms(e[..a]) && AllAtoms(e[a + 1..d]) && AllAtoms(e[d + 1..])
    ensures AtomChar(e[0]) && LocalAccepts(e[1..])
  {
    var rest := e[1..];
    var i := a - 1;
    assert AtomChar(e[..a][0]);
    assert AllAtoms(rest[..i]) by {
      AllAtomsCons(e[..a]);
      assert e[..a][1..] == rest[..i];
    }
    var dom, tld := e[a + 1..d], e[d + 1..];
    var post := rest[i + 1..];
    assert DomainPart(post) by {
      assert post == dom + ['.'] + tld;
      AllAtomsJoin(dom, '.', tld);
      assert post[|dom|] == '.';
    }
    assert rest[i] == '@';
  }

  /** `SecurityUtils.isValidEmail`: the regular expression matches and the
      address has at most 254 characters. */
  function IsValidEmail(email: string): (ok: bool)
    ensures ok <==> |email| <= 254 && EmailShape(email)
  {
    EmailRegexTestIsShape(email);
    EmailRegexTest(email) && |email| <= 254
  }

  /** What an accepted address looks like: no whitespace, exactly one `@`
      with something before it, and a `.` after the `@` with something on
      each side. */
  lemma ValidEmailFacts(email: string)
    requires IsValidEmail(email)
    ensures |email| <= 254
    ensures forall k :: 0 <= k < |email| ==> !IsJsWhitespace(email[k])
    ensures exists i :: OnlyAt(email, i) && HasDotFrom(email[i + 1..], 1)
  {
    var i, j :| 0 < i && i + 1 < j && j + 1 < |email| && email[i] == '@' && email[j] == '.' &&
      AllAtoms(email[..i]) && AllAtoms(email[i + 1..j]) && AllAtoms(email[j + 1..]);
    var local, dom, tld := email[..i], email[i + 1..j], email[j + 1..];
    forall k | 0 <= k < |email|
      ensures AtomChar(email[k]) || k == i
    {
      if k < i {
        assert email[k] == local[k];
      } else if i < k < j {
        assert email[k] == dom[k - i - 1];
      } else if j < k {
        assert email[k] == tld[k - j - 1];
      }
    }
    assert email[i + 1..][j - i - 1] == '.';
    assert OnlyAt(email, i);
  }

  /** `@` is at position `i`, which is not the first, and nowhere else. */
  ghost predicate OnlyAt(s: string, i: int)
  {
    0 < i < |s| && s[i] == '@' && forall k :: 0 <= k < |s| && s[k] == '@' ==> k == i
  }

  // ---------------------------------------------------------------------
  // isValidPassword and maskId
  // ---------------------------------------------------------------------

  /** `SecurityUtils.isValidPassword`: `password && length >= 4 && length <=
      100`, read as a truth value. An absent password is falsy. */
  function IsValidPassword(password: Option<string>): (ok: bool)
    ensures ok <==> password.Some? && 4 <= |password.value| <= 100
    ensures password == Some("") ==> !ok
  {
    Truthy(password) && |password.value| >= 4 && |password.value| <= 100
  }

  function Min(a: int, b: int): int
  {
    if a <= b then a else b
  }

  /** `s.slice(start)` with JavaScript's reading of a start index: a negative
      one counts from the end, and both are clamped to the string. */
  function Slice(s: string, start: int): (r: string)
    ensures start < 0 ==> r == s[|s| - Min(-start, |s|)..]
    ensures 0 <= start ==> r == s[Min(start, |s|)..]
  {
    var k := if start < 0 then (if |s| + start < 0 then 0 else |s| + start)
             else (if start > |s| then |s| else start);
    s[k..]
  }

  /** `SecurityUtils.maskId` on the string form of an identifier: three stars
      and then the last (at most) three characters. */
  function MaskId(id: string): (r: string)
    ensures |r| == 3 + Min(3, |id|)
    ensures r[..3] == "***"
    ensures r[3..] == id[|id| - Min(3, |id|)..]
  {
    var tail := Slice(id, -3);
    assert ("***" + tail)[3..] == tail;
    "***" + tail
  }

  /** The mask depends only on the last three characters. */
  lemma MaskIdOnlyLastThree(a: string, b: string)
    requires |a| >= 3 && |b| >= 3 && a[|a| - 3..] == b[|b| - 3..]
    ensures MaskId(a) == MaskId(b)
  {
    var ma, mb := MaskId(a), MaskId(b);
    assert ma == ma[..3] + ma[3..];
    assert mb == mb[..3] + mb[3..];
  }
}
