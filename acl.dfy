/**
 * The ACL template language of wazo_auth/token.py (Token._transform_acl_to_regex,
 * Token._transform_acl_me_to_uuid_or_me and the `re.match` in
 * Token.matches_required_acl).
 *
 * A template is compiled into a sequence of atoms, mirroring the regular
 * expression the source builds: every template character is escaped, then the
 * escaped `*` becomes `[^.]*?`, the escaped `#` becomes `.*?`, then `.me.` and
 * a trailing `.me` become `.(me|<auth_id>).` and `.(me|<auth_id>)`.  The
 * matcher is a recursive function over atoms and characters, not a regular
 * expression engine; its meaning is pinned down by an independent reference
 * definition (a template matches a string iff the string splits into one piece
 * per atom, each piece accepted by its atom).
 */
module Acl {

  /** One element of a compiled template. */
  datatype Atom =
    | Lit(c: char)            // an escaped template character: matches exactly itself
    | Segment                 // `*`, compiled to `[^.]*?`: a run of characters without `.`
    | Any                     // `#`, compiled to `.*?`: a run of characters without a newline
    | MeOrId(authId: string)  // a `me` segment, compiled to `(me|<auth_id>)`

  /** The escaped form of the segment `.me.` and of a trailing `.me`. */
  const InnerMe: seq<Atom> := [Lit('.'), Lit('m'), Lit('e'), Lit('.')]
  const TrailingMe: seq<Atom> := [Lit('.'), Lit('m'), Lit('e')]

  function EscapeChar(c: char): Atom {
    if c == '*' then Segment else if c == '#' then Any else Lit(c)
  }

  /** `re.escape(acl)` followed by the rewriting of `\*` and `\#`: every
      `*` becomes a segment wildcard, every `#` a free wildcard, and every other
      character a literal of itself. */
  function Escape(acl: string): (p: seq<Atom>)
    ensures |p| == |acl|
  {
    if acl == [] then [] else [EscapeChar(acl[0])] + Escape(acl[1..])
  }

  /** Escaping works character by character. */
  lemma {:induction false} EscapeAt(acl: string)
    ensures forall i :: 0 <= i < |acl| ==> Escape(acl)[i] == EscapeChar(acl[i])
  {
    if acl != [] {
      EscapeAt(acl[1..]);
      var p := Escape(acl);
      assert p[1..] == Escape(acl[1..]);
      forall i | 1 <= i < |acl| ensures p[i] == Escape(acl[1..])[i - 1] && acl[i] == acl[1..][i - 1] { }
    }
  }

  /** So `*` and only `*` becomes the segment wildcard, `#` and only `#` the
      free wildcard, every other character a literal of itself, and nothing
      is a `me` alternative. */
  lemma EscapeChars(acl: string)
    ensures forall i {:trigger Escape(acl)[i]} :: 0 <= i < |acl| ==>
              (Escape(acl)[i] == Segment <==> acl[i] == '*') && (Escape(acl)[i] == Any <==> acl[i] == '#') &&
              (Escape(acl)[i].Lit? ==> Escape(acl)[i].c == acl[i]) && !Escape(acl)[i].MeOrId?
  {
    EscapeAt(acl);
  }

  /** `str.replace` of `\.me\.` by `\.(me|<auth_id>)\.`: leftmost first, and
      occurrences do not overlap (the text after a replacement is scanned
      from the end of the replaced occurrence). */
  function ReplaceInnerMe(p: seq<Atom>, authId: string): (r: seq<Atom>)
    ensures |r| <= |p|
    decreases |p|
  {
    if |p| >= 4 && p[..4] == InnerMe then
      [Lit('.'), MeOrId(authId), Lit('.')] + ReplaceInnerMe(p[4..], authId)
    else if p == [] then []
    else [p[0]] + ReplaceInnerMe(p[1..], authId)
  }

  /** The rewriting of a trailing `\.me` into `\.(me|<auth_id>)`. */
  function ReplaceTrailingMe(p: seq<Atom>, authId: string): (r: seq<Atom>)
    ensures |p| >= 3 && p[|p| - 3..] == TrailingMe ==>
              |r| == |p| - 1 && r[..|r| - 2] == p[..|p| - 3] && r[|r| - 2..] == [Lit('.'), MeOrId(authId)]
    ensures !(|p| >= 3 && p[|p| - 3..] == TrailingMe) ==> r == p
  {
    if |p| >= 3 && p[|p| - 3..] == TrailingMe then
      var r := p[..|p| - 3] + [Lit('.'), MeOrId(authId)];
      assert r[..|r| - 2] == p[..|p| - 3];
      r
    else p
  }

  /** The pattern the source compiles for template `acl` on behalf of a token
      whose `auth_id` is `authId`. */
  function Compile(acl: string, authId: string): (r: seq<Atom>)
    ensures |r| <= |acl|
  {
    ReplaceTrailingMe(ReplaceInnerMe(Escape(acl), authId), authId)
  }

  /** No `me` alternative yet. */
  predicate NoMeOrId(p: seq<Atom>) {
    forall i :: 0 <= i < |p| ==> !p[i].MeOrId?
  }

  /** Every `me` alternative carries `authId` and stands between two dots. */
  predicate MeBetweenDots(p: seq<Atom>, authId: string) {
    forall i :: 0 <= i < |p| && p[i].MeOrId? ==>
      p[i].authId == authId && 0 < i < |p| - 1 && p[i - 1] == Lit('.') && p[i + 1] == Lit('.')
  }

  /** Every `me` alternative carries `authId`, follows a dot and is followed
      by a dot or ends the pattern. */
  predicate MeAfterDot(p: seq<Atom>, authId: string) {
    forall i :: 0 <= i < |p| && p[i].MeOrId? ==>
      p[i].authId == authId && 0 < i && p[i - 1] == Lit('.') && (i == |p| - 1 || p[i + 1] == Lit('.'))
  }

  /** Does pattern `p` match the whole of `s`?  The lazy quantifiers of the
      source do not change whether an anchored match exists, only which one
      the engine finds first. */
  predicate MatchFrom(p: seq<Atom>, s: string)
    decreases |p|, |s|
  {
    if p == [] then s == []
    else match p[0]
      case Lit(c) => |s| > 0 && s[0] == c && MatchFrom(p[1..], s[1..])
      case Segment => MatchFrom(p[1..], s) || (|s| > 0 && s[0] != '.' && MatchFrom(p, s[1..]))
      case Any => MatchFrom(p[1..], s) || (|s| > 0 && s[0] != '\n' && MatchFrom(p, s[1..]))
      case MeOrId(id) =>
        ("me" <= s && MatchFrom(p[1..], s[2..])) || (id <= s && MatchFrom(p[1..], s[|id|..]))
  }

  /** `re.match('^...$', s)`: `$` also matches just before a final newline. */
  predicate RegexMatch(p: seq<Atom>, s: string): (r: bool)
    ensures MatchFrom(p, s) ==> r
    ensures (s == [] || s[|s| - 1] != '\n') ==> (r <==> MatchFrom(p, s))
    ensures |s| > 0 && s[|s| - 1] == '\n' && MatchFrom(p, s[..|s| - 1]) ==> r
  {
    MatchFrom(p, s) || (|s| > 0 && s[|s| - 1] == '\n' && MatchFrom(p, s[..|s| - 1]))
  }

  /** Does the granted template `acl` of a token with `auth_id` `authId`
      allow the required permission `required`? */
  predicate AclMatches(acl: string, authId: string, required: string): (r: bool)
    ensures (required == [] || required[|required| - 1] != '\n') ==>
              (r <==> MatchFrom(Compile(acl, authId), required))
  {
    RegexMatch(Compile(acl, authId), required)
  }

  // ---------------------------------------------------------------------------
  // Reference semantics: one piece of the input per atom.

  /** The strings one atom accepts on its own. */
  predicate Accepts(a: Atom, w: string) {
    match a
    case Lit(c) => w == [c]
    case Segment => '.' !in w
    case Any => '\n' !in w
    case MeOrId(id) => w == "me" || w == id
  }

  function Concat(ws: seq<string>): string {
    if ws == [] then [] else ws[0] + Concat(ws[1..])
  }

  /** `ws` cuts `s` into one piece per atom of `p`, each accepted by its atom. */
  ghost predicate IsParse(p: seq<Atom>, s: string, ws: seq<string>) {
    |ws| == |p| && Concat(ws) == s && forall i :: 0 <= i < |p| ==> Accepts(p[i], ws[i])
  }

  lemma {:induction false} ParseMatches(p: seq<Atom>, s: string, ws: seq<string>)
    requires IsParse(p, s, ws)
    ensures MatchFrom(p, s)
    decreases |p|, |s|
  {
    if p != [] {
      var w, rest := ws[0], ws[1..];
      assert s == w + Concat(rest);
      assert s[|w|..] == Concat(rest);
      assert IsParse(p[1..], s[|w|..], rest) by {
        forall i | 0 <= i < |p[1..]| ensures Accepts(p[1..][i], rest[i]) {
          assert Accepts(p[i + 1], ws[i + 1]);
        }
      }
      assert Accepts(p[0], w) by { assert Accepts(p[0], ws[0]); }
      match p[0]
      case Lit(c) =>
        ParseMatches(p[1..], s[1..], rest);
      case MeOrId(id) =>
        ParseMatches(p[1..], s[|w|..], rest);
      case Segment =>
        if w == [] {
          ParseMatches(p[1..], s, rest);
        } else {
          assert s[0] == w[0];
          assert w[0] in w;
          ParseMatchesShorter(p, s, ws);
        }
      case Any =>
        if w == [] {
          ParseMatches(p[1..], s, rest);
        } else {
          assert s[0] == w[0];
          assert w[0] in w;
          ParseMatchesShorter(p, s, ws);
        }
    }
  }

  /** Helper of ParseMatches for a wildcard whose piece is not empty: drop
      the first character of that piece and of the input. */
  lemma {:induction false} ParseMatchesShorter(p: seq<Atom>, s: string, ws: seq<string>)
    requires IsParse(p, s, ws) && p != [] && (p[0].Segment? || p[0].Any?) && ws[0] != []
    ensures |s| > 0 && MatchFrom(p, s[1..])
    decreases |p|, |s|, 0
  {
    var w, rest := ws[0], ws[1..];
    assert s == w + Concat(rest);
    var ws' := [w[1..]] + rest;
    assert Concat(ws') == w[1..] + Concat(rest);
    assert s[1..] == Concat(ws');
    assert Accepts(p[0], w) by { assert Accepts(p[0], ws[0]); }
    forall i | 0 <= i < |p| ensures Accepts(p[i], ws'[i]) {
      if i == 0 {
        forall x | x in w[1..] ensures x in w { }
      } else {
        assert ws'[i] == ws[i];
      }
    }
    ParseMatches(p, s[1..], ws');
  }

  lemma {:induction false} MatchParses(p: seq<Atom>, s: string)
    requires MatchFrom(p, s)
    ensures exists ws :: IsParse(p, s, ws)
    decreases |p|, |s|, 1
  {
    if p == [] {
      assert IsParse(p, s, []);
    } else if p[0].Segment? || p[0].Any? {
      WildcardParses(p, s);
    } else {
      var w := match p[0]
        case Lit(c) => [c]
        case MeOrId(id) => if "me" <= s && MatchFrom(p[1..], s[2..]) then "me" else id;
      assert Accepts(p[0], w) && w <= s && MatchFrom(p[1..], s[|w|..]);
      MatchParses(p[1..], s[|w|..]);
      var rest :| IsParse(p[1..], s[|w|..], rest);
      Prepend(p, s, w, rest);
    }
  }

  lemma {:induction false} WildcardParses(p: seq<Atom>, s: string)
    requires p != [] && (p[0].Segment? || p[0].Any?) && MatchFrom(p, s)
    ensures exists ws :: IsParse(p, s, ws)
    decreases |p|, |s|, 0
  {
    if MatchFrom(p[1..], s) {
      MatchParses(p[1..], s);
      var rest :| IsParse(p[1..], s, rest);
      assert s[0..] == s;
      Prepend(p, s, [], rest);
    } else {
      MatchParses(p, s[1..]);
      var ws :| IsParse(p, s[1..], ws);
      Extend(p, s, ws);
    }
  }

  /** Helper of MatchParses: a piece for the first atom before a parse of the rest. */
  lemma Prepend(p: seq<Atom>, s: string, w: string, rest: seq<string>)
    requires p != [] && Accepts(p[0], w) && w <= s && IsParse(p[1..], s[|w|..], rest)
    ensures IsParse(p, s, [w] + rest)
  {
    var ws := [w] + rest;
    assert ws[1..] == rest;
    assert s == w + s[|w|..];
    forall i | 0 <= i < |p| ensures Accepts(p[i], ws[i]) {
      if i > 0 { assert p[i] == p[1..][i - 1]; }
    }
  }

  /** Helper of MatchParses: a wildcard's piece grows by one character. */
  lemma Extend(p: seq<Atom>, s: string, ws: seq<string>)
    requires p != [] && (p[0].Segment? || p[0].Any?) && |s| > 0
    requires p[0].Segment? ==> s[0] != '.'
    requires p[0].Any? ==> s[0] != '\n'
    requires IsParse(p, s[1..], ws)
    ensures IsParse(p, s, [[s[0]] + ws[0]] + ws[1..])
  {
    var ws' := [[s[0]] + ws[0]] + ws[1..];
    assert Concat(ws) == ws[0] + Concat(ws[1..]);
    assert ws'[1..] == ws[1..];
    assert Concat(ws') == [s[0]] + ws[0] + Concat(ws[1..]);
    assert s == [s[0]] + s[1..];
    forall i | 0 <= i < |p| ensures Accepts(p[i], ws'[i]) {
      if i == 0 {
        assert Accepts(p[0], ws[0]);
      }
    }
  }

  /** The matcher agrees with the reference semantics. */
  lemma MatchIffParse(p: seq<Atom>, s: string)
    ensures MatchFrom(p, s) <==> exists ws :: IsParse(p, s, ws)
  {
    if MatchFrom(p, s) {
      MatchParses(p, s);
    }
    if ws :| IsParse(p, s, ws) {
      ParseMatches(p, s, ws);
    }
  }

  // ---------------------------------------------------------------------------
  // The two wildcards and plain characters.

  /** The character a wildcard never consumes: `.` for `*` (`[^.]`), a
      newline for `#` (Python's `.`). */
  function Barrier(a: Atom): char
    requires a.Segment? || a.Any?
  {
    if a.Segment? then '.' else '\n'
  }

  /** A wildcard followed by the rest `q` of a pattern matches `s` iff some
      prefix of `s` free of the wildcard's barrier character is followed by a
      suffix that `q` matches: `*` never crosses a `.`, `#` crosses dots. */
  lemma {:induction false} WildcardRun(a: Atom, q: seq<Atom>, s: string)
    requires a.Segment? || a.Any?
    ensures MatchFrom([a] + q, s) <==>
            exists k :: 0 <= k <= |s| && Barrier(a) !in s[..k] && MatchFrom(q, s[k..])
    decreases |s|
  {
    var p := [a] + q;
    assert p[1..] == q;
    if MatchFrom(p, s) {
      if MatchFrom(q, s) {
        assert s[..0] == [] && s[0..] == s;
      } else {
        WildcardRun(a, q, s[1..]);
        var k :| 0 <= k <= |s[1..]| && Barrier(a) !in s[1..][..k] && MatchFrom(q, s[1..][k..]);
        assert s[..k + 1] == [s[0]] + s[1..][..k];
        assert s[k + 1..] == s[1..][k..];
      }
    }
    if k :| 0 <= k <= |s| && Barrier(a) !in s[..k] && MatchFrom(q, s[k..]) {
      if k == 0 {
        assert s[0..] == s;
      } else {
        assert s[0] in s[..k];
        assert s[1..][..k - 1] == s[1..k];
        forall x | x in s[1..k] ensures x in s[..k] { }
        assert s[1..][k - 1..] == s[k..];
        WildcardRun(a, q, s[1..]);
      }
    }
  }

  /** `*` alone matches exactly the strings without a dot. */
  lemma StarIsOneSegment(s: string)
    ensures MatchFrom([Segment], s) <==> '.' !in s
  {
    WildcardRun(Segment, [], s);
    if '.' !in s {
      assert s[..|s|] == s;
    }
  }

  /** `#` alone matches exactly the strings without a newline, dots included. */
  lemma HashIsAnything(s: string)
    ensures MatchFrom([Any], s) <==> '\n' !in s
  {
    WildcardRun(Any, [], s);
    if '\n' !in s {
      assert s[..|s|] == s;
    }
  }

  /** A template without wildcards, before any `me` rewriting, matches by
      plain character comparison. */
  lemma {:induction false} PlainPrefix(w: string, q: seq<Atom>, s: string)
    requires '*' !in w && '#' !in w
    ensures MatchFrom(Escape(w) + q, s) <==> w <= s && MatchFrom(q, s[|w|..])
  {
    if w != [] {
      var p := Escape(w) + q;
      assert p[0] == Lit(w[0]);
      assert p[1..] == Escape(w[1..]) + q;
      forall x | x in w[1..] ensures x in w { }
      if |s| > 0 {
        assert MatchFrom(p, s) == (s[0] == w[0] && MatchFrom(p[1..], s[1..]));
        PlainPrefix(w[1..], q, s[1..]);
        if w[1..] <= s[1..] {
          assert s[1..][|w| - 1..] == s[|w|..];
        }
        assert w <= s <==> (w[0] == s[0] && w[1..] <= s[1..]);
      }
    } else {
      assert Escape(w) + q == q;
    }
  }

  // ---------------------------------------------------------------------------
  // The `me` rewriting.

  /** Undo the `me` rewriting: every `(me|<auth_id>)` goes back to `me`. */
  function Unsubstitute(p: seq<Atom>): seq<Atom> {
    if p == [] then []
    else (if p[0].MeOrId? then [Lit('m'), Lit('e')] else [p[0]]) + Unsubstitute(p[1..])
  }

  lemma {:induction false} UnsubstituteAppend(a: seq<Atom>, b: seq<Atom>)
    ensures Unsubstitute(a + b) == Unsubstitute(a) + Unsubstitute(b)
  {
    if a != [] {
      var head := if a[0].MeOrId? then [Lit('m'), Lit('e')] else [a[0]];
      assert (a + b)[0] == a[0];
      assert (a + b)[1..] == a[1..] + b;
      UnsubstituteAppend(a[1..], b);
      calc {
        Unsubstitute(a + b);
        head + Unsubstitute(a[1..] + b);
        head + (Unsubstitute(a[1..]) + Unsubstitute(b));
        (head + Unsubstitute(a[1..])) + Unsubstitute(b);
      }
    } else {
      assert a + b == b;
    }
  }

  lemma {:induction false} UnsubstitutePlain(p: seq<Atom>)
    requires NoMeOrId(p)
    ensures Unsubstitute(p) == p
  {
    if p != [] {
      UnsubstitutePlain(p[1..]);
    }
  }

  lemma {:induction false} UndoInnerMe(p: seq<Atom>, authId: string)
    requires NoMeOrId(p)
    ensures Unsubstitute(ReplaceInnerMe(p, authId)) == p
    decreases |p|
  {
    if |p| >= 4 && p[..4] == InnerMe {
      NoMeOrIdSuffix(p, 4);
      UndoInnerMe(p[4..], authId);
      UnsubstituteAppend([Lit('.'), MeOrId(authId), Lit('.')], ReplaceInnerMe(p[4..], authId));
      UnsubstituteInnerMe(authId);
      assert p == p[..4] + p[4..];
    } else if p != [] {
      NoMeOrIdSuffix(p, 1);
      UndoInnerMe(p[1..], authId);
      UnsubstituteAppend([p[0]], ReplaceInnerMe(p[1..], authId));
      assert Unsubstitute([p[0]]) == [p[0]];
    }
  }

  lemma NoMeOrIdSuffix(p: seq<Atom>, k: nat)
    requires NoMeOrId(p) && k <= |p|
    ensures NoMeOrId(p[k..])
  {
    forall i | 0 <= i < |p[k..]| ensures !p[k..][i].MeOrId? { assert p[k..][i] == p[i + k]; }
  }

  lemma UnsubstituteInnerMe(authId: string)
    ensures Unsubstitute([Lit('.'), MeOrId(authId), Lit('.')]) == InnerMe
  {
    assert [Lit('.'), MeOrId(authId), Lit('.')][1..] == [MeOrId(authId), Lit('.')];
    assert [MeOrId(authId), Lit('.')][1..] == [Lit('.')];
    assert Unsubstitute([Lit('.')]) == [Lit('.')];
    assert Unsubstitute([MeOrId(authId), Lit('.')]) == [Lit('m'), Lit('e'), Lit('.')];
  }

  lemma UndoTrailingMe(p: seq<Atom>, authId: string)
    ensures Unsubstitute(ReplaceTrailingMe(p, authId)) == Unsubstitute(p)
  {
    if |p| >= 3 && p[|p| - 3..] == TrailingMe {
      var pre := p[..|p| - 3];
      assert p == pre + TrailingMe;
      UnsubstituteAppend(pre, [Lit('.'), MeOrId(authId)]);
      UnsubstituteAppend(pre, TrailingMe);
      assert Unsubstitute([MeOrId(authId)]) == [Lit('m'), Lit('e')];
      assert Unsubstitute([Lit('.'), MeOrId(authId)]) == TrailingMe;
      UnsubstitutePlain(TrailingMe);
    }
  }

  /** The inner rewriting puts every `me` alternative between two dots. */
  lemma {:induction false} ReplaceInnerMePlacesMe(p: seq<Atom>, authId: string)
    requires NoMeOrId(p)
    ensures MeBetweenDots(ReplaceInnerMe(p, authId), authId)
    decreases |p|
  {
    if |p| >= 4 && p[..4] == InnerMe {
      NoMeOrIdSuffix(p, 4);
      ReplaceInnerMePlacesMe(p[4..], authId);
      BetweenDotsAppend([Lit('.'), MeOrId(authId), Lit('.')], ReplaceInnerMe(p[4..], authId), authId);
    } else if p != [] {
      NoMeOrIdSuffix(p, 1);
      ReplaceInnerMePlacesMe(p[1..], authId);
      assert !p[0].MeOrId?;
      BetweenDotsAppend([p[0]], ReplaceInnerMe(p[1..], authId), authId);
    }
  }

  lemma BetweenDotsAppend(a: seq<Atom>, b: seq<Atom>, authId: string)
    requires MeBetweenDots(a, authId) && MeBetweenDots(b, authId)
    ensures MeBetweenDots(a + b, authId)
  {
    var c := a + b;
    forall i | 0 <= i < |c| && c[i].MeOrId?
      ensures c[i].authId == authId && 0 < i < |c| - 1 && c[i - 1] == Lit('.') && c[i + 1] == Lit('.')
    {
      if i < |a| {
        assert c[i] == a[i] && c[i - 1] == a[i - 1] && c[i + 1] == a[i + 1];
      } else {
        var j := i - |a|;
        assert c[i] == b[j] && c[i - 1] == b[j - 1] && c[i + 1] == b[j + 1];
      }
    }
  }

  /** The trailing rewriting keeps every alternative after a dot, and its own
      alternative follows a dot and ends the pattern. */
  lemma ReplaceTrailingMePlacesMe(p: seq<Atom>, authId: string)
    requires MeBetweenDots(p, authId)
    ensures MeAfterDot(ReplaceTrailingMe(p, authId), authId)
  {
    var r := ReplaceTrailingMe(p, authId);
    if |p| >= 3 && p[|p| - 3..] == TrailingMe {
      forall i | 0 <= i < |r| && r[i].MeOrId?
        ensures r[i].authId == authId && 0 < i && r[i - 1] == Lit('.') && (i == |r| - 1 || r[i + 1] == Lit('.'))
      {
        if i < |r| - 2 {
          assert r[i] == r[..|r| - 2][i] == p[i];
          assert r[i - 1] == r[..|r| - 2][i - 1] == p[i - 1];
          if i + 1 < |r| - 2 {
            assert r[i + 1] == r[..|r| - 2][i + 1] == p[i + 1];
          } else {
            assert r[i + 1] == r[|r| - 2..][0];
          }
        } else {
          assert r[i] == r[|r| - 2..][i - (|r| - 2)];
          assert r[i - 1] == r[|r| - 2..][0];
        }
      }
    }
  }

  /** Every `me` alternative of a compiled template stands right after a dot
      and before a dot or the end, so it comes from an inner `.me.` segment
      or a trailing `.me`, never from a leading `me` or from a `me` inside a
      word; turning every alternative back into `me` gives the escaped
      template. */
  lemma CompilePlacesMe(acl: string, authId: string)
    ensures MeAfterDot(Compile(acl, authId), authId)
    ensures Unsubstitute(Compile(acl, authId)) == Escape(acl)
  {
    var e := Escape(acl);
    EscapeChars(acl);
    assert NoMeOrId(e);
    ReplaceInnerMePlacesMe(e, authId);
    ReplaceTrailingMePlacesMe(ReplaceInnerMe(e, authId), authId);
    UndoCompile(acl, authId);
  }

  lemma UndoCompile(acl: string, authId: string)
    ensures Unsubstitute(Compile(acl, authId)) == Escape(acl)
  {
    var e := Escape(acl);
    EscapeChars(acl);
    assert NoMeOrId(e);
    UndoTrailingMe(ReplaceInnerMe(e, authId), authId);
    UndoInnerMe(e, authId);
  }

  /** A rewritten pattern accepts everything its `me`-as-literal form accepts. */
  lemma {:induction false} LiteralMeStillMatches(p: seq<Atom>, s: string)
    requires MatchFrom(Unsubstitute(p), s)
    ensures MatchFrom(p, s)
    decreases |p|, |s|
  {
    if p != [] {
      var u := Unsubstitute(p[1..]);
      match p[0]
      case MeOrId(id) =>
        assert Unsubstitute(p) == [Lit('m'), Lit('e')] + u;
        assert ([Lit('m'), Lit('e')] + u)[1..] == [Lit('e')] + u;
        assert ([Lit('e')] + u)[1..] == u;
        assert s[1..][1..] == s[2..];
        LiteralMeStillMatches(p[1..], s[2..]);
        assert "me" <= s;
      case Lit(c) =>
        assert (Unsubstitute(p))[1..] == u;
        LiteralMeStillMatches(p[1..], s[1..]);
      case Segment =>
        assert (Unsubstitute(p))[1..] == u;
        if MatchFrom(u, s) {
          LiteralMeStillMatches(p[1..], s);
        } else {
          LiteralMeStillMatches(p, s[1..]);
        }
      case Any =>
        assert (Unsubstitute(p))[1..] == u;
        if MatchFrom(u, s) {
          LiteralMeStillMatches(p[1..], s);
        } else {
          LiteralMeStillMatches(p, s[1..]);
        }
    }
  }

  /** The `me` rewriting only widens a template: whatever the template allows
      with `me` read literally, it still allows for every `auth_id`. */
  lemma LiteralMeAlwaysGranted(acl: string, authId: string, required: string)
    requires RegexMatch(Escape(acl), required)
    ensures AclMatches(acl, authId, required)
  {
    UndoCompile(acl, authId);
    if MatchFrom(Escape(acl), required) {
      LiteralMeStillMatches(Compile(acl, authId), required);
    } else {
      LiteralMeStillMatches(Compile(acl, authId), required[..|required| - 1]);
    }
  }

  // ---------------------------------------------------------------------------
  // Whole templates: what the compiled, anchored pattern grants.

  lemma {:induction false} EscapeAppend(a: string, b: string)
    ensures Escape(a + b) == Escape(a) + Escape(b)
  {
    if a != [] {
      assert (a + b)[0] == a[0];
      assert (a + b)[1..] == a[1..] + b;
      EscapeAppend(a[1..], b);
    } else {
      assert a + b == b;
    }
  }

  /** The inner rewriting never touches a final escaped `.me`: an occurrence
      of `.me.` that could reach it ends on its dot. */
  lemma {:induction false} ReplaceInnerMeKeepsTrailingMe(p: seq<Atom>, authId: string)
    requires |p| >= 3 && p[|p| - 3..] == TrailingMe
    ensures var r := ReplaceInnerMe(p, authId); |r| >= 3 && r[|r| - 3..] == TrailingMe
    decreases |p|
  {
    if |p| == 3 {
      assert p == TrailingMe;
      ShortTailsUnchanged(authId);
    } else if p[..4] == InnerMe {
      InnerMeBeforeTrailingMe(p);
      var rest := p[4..];
      var r := ReplaceInnerMe(p, authId);
      assert r == [Lit('.'), MeOrId(authId), Lit('.')] + ReplaceInnerMe(rest, authId);
      if |rest| == 2 {
        ShortTailsUnchanged(authId);
        assert r == [Lit('.'), MeOrId(authId), Lit('.'), Lit('m'), Lit('e')];
      } else {
        ReplaceInnerMeKeepsTrailingMe(rest, authId);
        KeepsTrailingMe([Lit('.'), MeOrId(authId), Lit('.')], ReplaceInnerMe(rest, authId));
      }
    } else {
      var rest := p[1..];
      assert rest[|rest| - 3..] == p[|p| - 3..];
      ReplaceInnerMeKeepsTrailingMe(rest, authId);
      KeepsTrailingMe([p[0]], ReplaceInnerMe(rest, authId));
    }
  }

  /** An escaped `.me.` at the head of a pattern that ends in an escaped
      `.me` leaves that ending, or its `me`, behind it. */
  lemma InnerMeBeforeTrailingMe(p: seq<Atom>)
    requires |p| >= 4 && p[|p| - 3..] == TrailingMe && p[..4] == InnerMe
    ensures |p| >= 6
    ensures |p| == 6 ==> p[4..] == [Lit('m'), Lit('e')]
    ensures |p| > 6 ==> p[4..][|p| - 7..] == TrailingMe
  {
    assert p[1] == Lit('m') && p[2] == Lit('e') && p[3] == Lit('.');
    assert p[|p| - 3] == Lit('.') && p[|p| - 2] == Lit('m') && p[|p| - 1] == Lit('e');
  }

  lemma KeepsTrailingMe(a: seq<Atom>, b: seq<Atom>)
    requires |b| >= 3 && b[|b| - 3..] == TrailingMe
    ensures |a + b| >= 3 && (a + b)[|a + b| - 3..] == TrailingMe
  {
    assert (a + b)[|a + b| - 3..] == b[|b| - 3..];
  }

  lemma ShortTailsUnchanged(authId: string)
    ensures ReplaceInnerMe(TrailingMe, authId) == TrailingMe
    ensures ReplaceInnerMe([Lit('m'), Lit('e')], authId) == [Lit('m'), Lit('e')]
  {
    var me := [Lit('m'), Lit('e')];
    assert ReplaceInnerMe([Lit('e')], authId) == [Lit('e')] + ReplaceInnerMe([], authId);
    assert me[1..] == [Lit('e')];
    assert ReplaceInnerMe(me, authId) == [Lit('m')] + ReplaceInnerMe([Lit('e')], authId);
    assert TrailingMe[1..] == me;
    assert ReplaceInnerMe(TrailingMe, authId) == [Lit('.')] + ReplaceInnerMe(me, authId);
  }

  /** For every template ending in `.me`, the compiled pattern ends with a dot
      and a `me`-or-`auth_id` alternative, and what comes before them is the
      template's first part with some `me` segments rewritten. */
  lemma CompileTrailingMe(pre: string, authId: string)
    ensures exists q :: Compile(pre + ".me", authId) == q + [Lit('.'), MeOrId(authId)] &&
                        Unsubstitute(q) == Escape(pre)
  {
    var c := Compile(pre + ".me", authId);
    CompileEndsWithMe(pre, authId);
    var q := c[..|c| - 2];
    assert c == q + [Lit('.'), MeOrId(authId)];
    UndoCompileTrailingMe(pre, authId);
    assert Unsubstitute(q) == Escape(pre) by {
      UnsubstituteTrailing(q, authId);
      CancelSuffix(Unsubstitute(q), Escape(pre), TrailingMe);
    }
  }

  lemma UndoCompileTrailingMe(pre: string, authId: string)
    ensures Unsubstitute(Compile(pre + ".me", authId)) == Escape(pre) + TrailingMe
  {
    UndoCompile(pre + ".me", authId);
    EscapeDotMe(pre);
  }

  lemma EscapeDotMe(pre: string)
    ensures Escape(pre + ".me") == Escape(pre) + TrailingMe
  {
    EscapeAppend(pre, ".me");
    assert Escape(".me") == TrailingMe;
  }

  /** The compiled form of a template ending in `.me` ends with a dot and a
      `me` alternative. */
  lemma CompileEndsWithMe(pre: string, authId: string)
    ensures var c := Compile(pre + ".me", authId);
            |c| >= 2 && c[|c| - 2..] == [Lit('.'), MeOrId(authId)]
  {
    var e := Escape(pre + ".me");
    EscapeTrailingMe(pre + ".me");
    assert (pre + ".me")[|pre + ".me"| - 3..] == ".me";
    ReplaceInnerMeKeepsTrailingMe(e, authId);
  }

  lemma CancelSuffix(a: seq<Atom>, b: seq<Atom>, t: seq<Atom>)
    requires a + t == b + t
    ensures a == b
  {
    assert a == (a + t)[..|a|];
    assert b == (b + t)[..|b|];
  }

  lemma UnsubstituteTrailing(q: seq<Atom>, authId: string)
    ensures Unsubstitute(q + [Lit('.'), MeOrId(authId)]) == Unsubstitute(q) + TrailingMe
  {
    UnsubstituteAppend(q, [Lit('.'), MeOrId(authId)]);
    assert Unsubstitute([MeOrId(authId)]) == [Lit('m'), Lit('e')];
    assert Unsubstitute([Lit('.'), MeOrId(authId)]) == TrailingMe;
  }

  /** Patterns compose: a string matched by `a` followed by one matched by
      `b` is matched by `a + b`. */
  lemma {:induction false} MatchAppend(a: seq<Atom>, b: seq<Atom>, x: string, y: string)
    requires MatchFrom(a, x) && MatchFrom(b, y)
    ensures MatchFrom(a + b, x + y)
    decreases |a|, |x|, 2
  {
    if a == [] {
      assert a + b == b && x == [] && x + y == y;
    } else if a[0].Lit? {
      MatchAppendLit(a, b, x, y);
    } else if a[0].MeOrId? {
      MatchAppendMe(a, b, x, y);
    } else {
      MatchAppendWildcard(a, b, x, y);
    }
  }

  lemma {:induction false} MatchAppendLit(a: seq<Atom>, b: seq<Atom>, x: string, y: string)
    requires a != [] && a[0].Lit? && MatchFrom(a, x) && MatchFrom(b, y)
    ensures MatchFrom(a + b, x + y)
    decreases |a|, |x|, 1
  {
    MatchAppend(a[1..], b, x[1..], y);
    assert a + b == [a[0]] + (a[1..] + b);
    assert x + y == [x[0]] + (x[1..] + y);
    ConsMatch(a[0], a[1..] + b, x[1..] + y, [x[0]]);
  }

  lemma {:induction false} MatchAppendMe(a: seq<Atom>, b: seq<Atom>, x: string, y: string)
    requires a != [] && a[0].MeOrId? && MatchFrom(a, x) && MatchFrom(b, y)
    ensures MatchFrom(a + b, x + y)
    decreases |a|, |x|, 1
  {
    if "me" <= x && MatchFrom(a[1..], x[2..]) {
      MatchAppendMeAs(a, b, x, y, "me");
    } else {
      MatchAppendMeAs(a, b, x, y, a[0].authId);
    }
  }

  lemma {:induction false} MatchAppendMeAs(a: seq<Atom>, b: seq<Atom>, x: string, y: string, t: string)
    requires a != [] && a[0].MeOrId? && (t == "me" || t == a[0].authId)
    requires t <= x && MatchFrom(a[1..], x[|t|..]) && MatchFrom(b, y)
    ensures MatchFrom(a + b, x + y)
    decreases |a|, |x|, 0
  {
    MatchAppend(a[1..], b, x[|t|..], y);
    assert a + b == [a[0]] + (a[1..] + b);
    assert x + y == t + (x[|t|..] + y);
    ConsMatch(a[0], a[1..] + b, x[|t|..] + y, t);
  }

  lemma {:induction false} MatchAppendWildcard(a: seq<Atom>, b: seq<Atom>, x: string, y: string)
    requires a != [] && (a[0].Segment? || a[0].Any?) && MatchFrom(a, x) && MatchFrom(b, y)
    ensures MatchFrom(a + b, x + y)
    decreases |a|, |x|, 0
  {
    assert a + b == [a[0]] + (a[1..] + b);
    if MatchFrom(a[1..], x) {
      MatchAppend(a[1..], b, x, y);
      ConsMatch(a[0], a[1..] + b, x + y, []);
    } else {
      MatchAppend(a, b, x[1..], y);
      assert x + y == [x[0]] + (x[1..] + y);
      WildcardEats(a[0], a[1..] + b, x[1..] + y, x[0]);
    }
  }

  /** One atom in front of a pattern consumes one piece in front of the input. */
  lemma ConsMatch(h: Atom, r: seq<Atom>, s: string, t: string)
    requires MatchFrom(r, s)
    requires match h
      case Lit(c) => t == [c]
      case MeOrId(id) => t == "me" || t == id
      case _ => t == []
    ensures MatchFrom([h] + r, t + s)
  {
    var p := [h] + r;
    assert p[1..] == r;
    assert (t + s)[|t|..] == s;
    if h.Lit? {
      assert (t + s)[0] == h.c;
    } else if h.MeOrId? {
      assert t <= t + s;
    } else {
      assert t + s == s;
    }
  }

  lemma WildcardEats(h: Atom, r: seq<Atom>, s: string, ch: char)
    requires h.Segment? || h.Any?
    requires ch != Barrier(h) && MatchFrom([h] + r, s)
    ensures MatchFrom([h] + r, [ch] + s)
  {
    assert ([ch] + s)[1..] == s;
  }

  /** A template ending in `.me` grants, after whatever its first part grants
      literally, both `.me` and `.<auth_id>`. */
  lemma TrailingMeGrants(pre: string, authId: string, u: string)
    requires MatchFrom(Escape(pre), u)
    ensures AclMatches(pre + ".me", authId, u + ".me")
    ensures AclMatches(pre + ".me", authId, u + "." + authId)
  {
    TrailingMeGrantsOne(pre, authId, u, "me");
    assert u + ".me" == u + "." + "me";
    TrailingMeGrantsOne(pre, authId, u, authId);
  }

  /** One of the two readings of the trailing `me` of such a template. */
  lemma TrailingMeGrantsOne(pre: string, authId: string, u: string, x: string)
    requires MatchFrom(Escape(pre), u)
    requires x == "me" || x == authId
    ensures AclMatches(pre + ".me", authId, u + "." + x)
  {
    CompileTrailingMe(pre, authId);
    var q :| Compile(pre + ".me", authId) == q + [Lit('.'), MeOrId(authId)] && Unsubstitute(q) == Escape(pre);
    LiteralMeStillMatches(q, u);
    DotMeOrIdAfter(q, authId, u, x);
  }

  lemma DotMeOrIdAfter(q: seq<Atom>, authId: string, u: string, x: string)
    requires MatchFrom(q, u)
    requires x == "me" || x == authId
    ensures MatchFrom(q + [Lit('.'), MeOrId(authId)], u + "." + x)
  {
    DotMeOrId(authId, x);
    MatchAppend(q, [Lit('.'), MeOrId(authId)], u, "." + x);
    assert u + "." + x == u + ("." + x);
  }

  /** The template `#` grants every string without a newline, and such a
      string followed by one final newline (`$` matches before it). */
  lemma HashTemplateGrants(authId: string, s: string)
    ensures AclMatches("#", authId, s) <==>
            '\n' !in s || (s[|s| - 1] == '\n' && '\n' !in s[..|s| - 1])
  {
    assert Escape("#") == [Any];
    assert ReplaceInnerMe([Any], authId) == [Any] + ReplaceInnerMe([], authId);
    assert Compile("#", authId) == [Any];
    HashIsAnything(s);
    if |s| > 0 {
      HashIsAnything(s[..|s| - 1]);
      if '\n' !in s[..|s| - 1] && s[|s| - 1] != '\n' {
        assert s == s[..|s| - 1] + [s[|s| - 1]];
      }
    }
  }

  /** The template text holds no `.me.` segment. */
  predicate TextFreeOfInnerMe(w: string)
    decreases |w|
  {
    |w| < 4 || (w[..4] != ".me." && TextFreeOfInnerMe(w[1..]))
  }

  /** The template text holds no `.me.` segment and does not end in `.me`. */
  predicate WithoutMeSegment(w: string) {
    TextFreeOfInnerMe(w) && !(|w| >= 3 && w[|w| - 3..] == ".me")
  }

  lemma {:induction false} EscapeFreeOfInnerMe(w: string)
    requires TextFreeOfInnerMe(w)
    ensures FreeOfInnerMe(Escape(w))
    decreases |w|
  {
    var e := Escape(w);
    if |e| >= 4 {
      EscapeChars(w);
      assert forall k :: 0 <= k < 4 ==> (e[..4][k] == InnerMe[k] <==> w[..4][k] == ".me."[k]);
      assert e[..4] != InnerMe;
      assert e[1..] == Escape(w[1..]);
      EscapeFreeOfInnerMe(w[1..]);
    }
  }

  /** Without `.me.` segments and a trailing `.me`, compiling only escapes. */
  lemma CompileWithoutMe(w: string, authId: string)
    requires WithoutMeSegment(w)
    ensures Compile(w, authId) == Escape(w)
  {
    var e := Escape(w);
    assert ReplaceInnerMe(e, authId) == e by {
      EscapeFreeOfInnerMe(w);
      NoInnerMe(e, authId);
    }
    EscapeTrailingMe(w);
    assert ReplaceTrailingMe(e, authId) == e;
  }

  /** The escaped template ends in an escaped `.me` iff the template ends in `.me`. */
  lemma EscapeTrailingMe(w: string)
    ensures var e := Escape(w);
            (|e| >= 3 && e[|e| - 3..] == TrailingMe) <==> (|w| >= 3 && w[|w| - 3..] == ".me")
  {
    var e := Escape(w);
    if |w| >= 3 {
      EscapeChars(w);
      assert forall k :: 0 <= k < 3 ==> (e[|e| - 3..][k] == TrailingMe[k] <==> w[|w| - 3..][k] == ".me"[k]);
    }
  }

  /** A template without wildcards and without `me` segments grants exactly
      itself, and itself followed by one final newline. */
  lemma PlainTemplateGrants(w: string, authId: string, s: string)
    requires '*' !in w && '#' !in w && WithoutMeSegment(w)
    ensures AclMatches(w, authId, s) <==> s == w || s == w + "\n"
  {
    CompileWithoutMe(w, authId);
    PlainTemplate(w, s);
    if |s| > 0 {
      PlainTemplate(w, s[..|s| - 1]);
      if s == w + "\n" {
        assert s[..|s| - 1] == w;
      }
      if s[|s| - 1] == '\n' && s[..|s| - 1] == w {
        assert s == w + "\n";
      }
    }
  }

  // ---------------------------------------------------------------------------
  // Worked templates.

  /** `p` holds no occurrence of the escaped `.me.` segment. */
  predicate FreeOfInnerMe(p: seq<Atom>)
    decreases |p|
  {
    |p| < 4 || (p[..4] != InnerMe && FreeOfInnerMe(p[1..]))
  }

  lemma {:induction false} NoInnerMe(p: seq<Atom>, authId: string)
    requires FreeOfInnerMe(p)
    ensures ReplaceInnerMe(p, authId) == p
  {
    if |p| >= 4 {
      NoInnerMe(p[1..], authId);
    } else if p != [] {
      if |p| > 1 {
        assert FreeOfInnerMe(p[1..]);
      }
      NoInnerMe(p[1..], authId);
    }
  }

  // ---------------------------------------------------------------------------
  // Inner `.me.` segments, for every template.

  /** The scan of `str.replace` passes over a part without `.me.` (even one
      that runs into the dot of the next `.me.`), rewrites the `.me.` after
      it, and goes on with the rest. */
  lemma {:induction false} ReplaceInnerMeSkips(a: seq<Atom>, b: seq<Atom>, authId: string)
    requires FreeOfInnerMe(a + TrailingMe)
    ensures ReplaceInnerMe(a + (InnerMe + b), authId) ==
            a + ([Lit('.'), MeOrId(authId), Lit('.')] + ReplaceInnerMe(b, authId))
    decreases |a|
  {
    var p := a + (InnerMe + b);
    if a == [] {
      assert p == InnerMe + b;
      assert p[..4] == InnerMe && p[4..] == b;
    } else {
      var t := a + TrailingMe;
      SameFirstFour(a, b);
      assert t[1..] == a[1..] + TrailingMe;
      assert p[1..] == a[1..] + (InnerMe + b);
      ReplaceInnerMeSkips(a[1..], b, authId);
      ReplaceInnerMeStep(p, authId);
      assert a == [a[0]] + a[1..];
    }
  }

  /** Before the end of `a`, a `.me.` and a trailing `.me` look the same. */
  lemma SameFirstFour(a: seq<Atom>, b: seq<Atom>)
    requires a != []
    ensures (a + (InnerMe + b))[..4] == (a + TrailingMe)[..4]
  {
    var p := a + (InnerMe + b);
    var t := a + TrailingMe;
    forall k | 0 <= k < 4
      ensures p[k] == t[k]
    {
      if k >= |a| {
        assert InnerMe[k - |a|] == TrailingMe[k - |a|];
      }
    }
  }

  /** Where no `.me.` starts, the scan keeps one atom and moves on. */
  lemma ReplaceInnerMeStep(p: seq<Atom>, authId: string)
    requires p != [] && !(|p| >= 4 && p[..4] == InnerMe)
    ensures ReplaceInnerMe(p, authId) == [p[0]] + ReplaceInnerMe(p[1..], authId)
  {
  }

  /** For every template `w1.me.w2` whose first `.me.` is the one after
      `w1`, the inner rewriting keeps the escaped `w1`, turns that `.me.`
      into a dot, a `me`-or-`auth_id` alternative and a dot, and then
      rewrites `w2` in turn. */
  lemma InnerMeRewritten(w1: string, w2: string, authId: string)
    requires TextFreeOfInnerMe(w1 + ".me")
    ensures ReplaceInnerMe(Escape(w1 + ".me." + w2), authId) ==
            Escape(w1) + ([Lit('.'), MeOrId(authId), Lit('.')] + ReplaceInnerMe(Escape(w2), authId))
  {
    EscapeAppend(w1 + ".me.", w2);
    EscapeAppend(w1, ".me.");
    assert Escape(".me.") == InnerMe;
    EscapeFreeOfInnerMe(w1 + ".me");
    EscapeDotMe(w1);
    assert Escape(w1 + ".me." + w2) == Escape(w1) + (InnerMe + Escape(w2));
    ReplaceInnerMeSkips(Escape(w1), Escape(w2), authId);
  }

  /** Every template holding a `.me.` splits at its first one. */
  lemma {:induction false} FirstInnerMe(w: string)
    requires !TextFreeOfInnerMe(w)
    ensures exists w1, w2 :: w == w1 + ".me." + w2 && TextFreeOfInnerMe(w1 + ".me")
    decreases |w|
  {
    if w[..4] == ".me." {
      assert w == [] + ".me." + w[4..];
      assert TextFreeOfInnerMe([] + ".me");
    } else {
      FirstInnerMe(w[1..]);
      var v1, v2 :| w[1..] == v1 + ".me." + v2 && TextFreeOfInnerMe(v1 + ".me");
      FirstInnerMeLater(w, v1, v2);
    }
  }

  /** A split of `w[1..]` at its first `.me.` extends to `w` when `w` does
      not itself start with `.me.`. */
  lemma FirstInnerMeLater(w: string, v1: string, v2: string)
    requires |w| >= 4 && w[..4] != ".me."
    requires w[1..] == v1 + ".me." + v2 && TextFreeOfInnerMe(v1 + ".me")
    ensures var w1 := [w[0]] + v1; w == w1 + ".me." + v2 && TextFreeOfInnerMe(w1 + ".me")
  {
    var w1 := [w[0]] + v1;
    assert w == w1 + ".me." + v2;
    var t := w1 + ".me";
    assert t[..4] == w[..4];
    assert t[1..] == v1 + ".me";
  }

  /** The inner rewriting shortens a pattern by at most one atom in four. */
  lemma {:induction false} ReplaceInnerMeLength(p: seq<Atom>, authId: string)
    ensures 3 * |p| <= 4 * |ReplaceInnerMe(p, authId)|
    decreases |p|
  {
    if |p| >= 4 && p[..4] == InnerMe {
      ReplaceInnerMeLength(p[4..], authId);
    } else if p != [] {
      ReplaceInnerMeLength(p[1..], authId);
    }
  }

  /** The trailing rewriting only looks at the last three atoms. */
  lemma TrailingAppend(a: seq<Atom>, r: seq<Atom>, authId: string)
    requires |r| >= 3
    ensures ReplaceTrailingMe(a + r, authId) == a + ReplaceTrailingMe(r, authId)
  {
    assert (a + r)[|a + r| - 3..] == r[|r| - 3..];
    assert (a + r)[..|a + r| - 3] == a + r[..|r| - 3];
  }

  /** After a rewritten `.me.`, a short tail other than `me` is not a
      trailing `.me`. */
  lemma ShortTailAfterMe(a: seq<Atom>, e: seq<Atom>, authId: string)
    requires |e| < 3 && e != [Lit('m'), Lit('e')]
    ensures var p := a + ([Lit('.'), MeOrId(authId), Lit('.')] + e);
            ReplaceTrailingMe(p, authId) == p
  {
    var p := a + ([Lit('.'), MeOrId(authId), Lit('.')] + e);
    var n := |p|;
    if |e| == 0 {
      assert p[n - 3..][1] == MeOrId(authId);
    } else if |e| == 1 {
      assert p[n - 3..][0] == MeOrId(authId);
    } else {
      assert p[n - 3..][1..] == e;
      assert TrailingMe[1..] == [Lit('m'), Lit('e')];
    }
  }

  /** Only the text `me` escapes to the two literals `m`, `e`. */
  lemma EscapeIsMe(w: string)
    ensures Escape(w) == [Lit('m'), Lit('e')] ==> w == "me"
  {
    if Escape(w) == [Lit('m'), Lit('e')] {
      EscapeAt(w);
      assert EscapeChar(w[0]) == Lit('m') && EscapeChar(w[1]) == Lit('e');
      assert w == [w[0], w[1]];
    }
  }

  /** For every template `w1.me.w2` whose first `.me.` is the one after `w1`,
      and whose rest `w2` is not `me` on its own, the compiled pattern is the
      escaped `w1`, a dot, a `me`-or-`auth_id` alternative, a dot, and the
      compiled `w2`.  Applied again to `w2`, it reaches every `.me.` that
      `str.replace` rewrites. */
  lemma CompileInnerMe(w1: string, w2: string, authId: string)
    requires TextFreeOfInnerMe(w1 + ".me") && w2 != "me"
    ensures Compile(w1 + ".me." + w2, authId) ==
            Escape(w1) + ([Lit('.'), MeOrId(authId), Lit('.')] + Compile(w2, authId))
  {
    InnerMeRewritten(w1, w2, authId);
    if |w2| >= 3 {
      ReplaceInnerMeLength(Escape(w2), authId);
      TrailingAfterInnerMe(Escape(w1), ReplaceInnerMe(Escape(w2), authId), authId);
    } else {
      ShortTailCompiles(w2, authId);
      ShortTailAfterMe(Escape(w1), Escape(w2), authId);
    }
  }

  /** With a tail of three atoms or more, the trailing rewriting only sees
      the tail. */
  lemma TrailingAfterInnerMe(e1: seq<Atom>, r: seq<Atom>, authId: string)
    requires |r| >= 3
    ensures ReplaceTrailingMe(e1 + ([Lit('.'), MeOrId(authId), Lit('.')] + r), authId) ==
            e1 + ([Lit('.'), MeOrId(authId), Lit('.')] + ReplaceTrailingMe(r, authId))
  {
    var m := [Lit('.'), MeOrId(authId), Lit('.')];
    assert e1 + (m + r) == (e1 + m) + r;
    TrailingAppend(e1 + m, r, authId);
    assert (e1 + m) + ReplaceTrailingMe(r, authId) == e1 + (m + ReplaceTrailingMe(r, authId));
  }

  /** A template shorter than three characters is left as escaped by both
      rewritings, and only `me` escapes to `m`, `e`. */
  lemma ShortTailCompiles(w: string, authId: string)
    requires |w| < 3 && w != "me"
    ensures ReplaceInnerMe(Escape(w), authId) == Escape(w) && Compile(w, authId) == Escape(w)
    ensures |Escape(w)| < 3 && Escape(w) != [Lit('m'), Lit('e')]
  {
    assert FreeOfInnerMe(Escape(w));
    NoInnerMe(Escape(w), authId);
    EscapeIsMe(w);
  }

  /** A dot, a `me`-or-`auth_id` alternative and a dot match `.me.` and
      `.<auth_id>.` in front of whatever the rest matches. */
  lemma DotMeDot(authId: string, x: string, c: seq<Atom>, u: string)
    requires x == "me" || x == authId
    requires MatchFrom(c, u)
    ensures MatchFrom([Lit('.'), MeOrId(authId), Lit('.')] + c, "." + x + "." + u)
  {
    DotMeOrId(authId, x);
    assert MatchFrom([Lit('.')] + c, "." + u) by {
      assert ([Lit('.')] + c)[1..] == c;
      assert ("." + u)[1..] == u;
    }
    MatchAppend([Lit('.'), MeOrId(authId)], [Lit('.')] + c, "." + x, "." + u);
    assert [Lit('.'), MeOrId(authId)] + ([Lit('.')] + c) == [Lit('.'), MeOrId(authId), Lit('.')] + c;
    assert "." + x + ("." + u) == "." + x + "." + u;
  }

  /** A `.me.` segment grants both `.me.` and `.<auth_id>.` between what the
      parts around it grant. */
  lemma InnerMeGrants(w1: string, w2: string, authId: string, u1: string, x: string, u2: string)
    requires TextFreeOfInnerMe(w1 + ".me") && w2 != "me"
    requires MatchFrom(Escape(w1), u1) && MatchFrom(Compile(w2, authId), u2)
    requires x == "me" || x == authId
    ensures AclMatches(w1 + ".me." + w2, authId, u1 + "." + x + "." + u2)
  {
    CompileInnerMe(w1, w2, authId);
    DotMeDot(authId, x, Compile(w2, authId), u2);
    MatchAppend(Escape(w1), [Lit('.'), MeOrId(authId), Lit('.')] + Compile(w2, authId), u1, "." + x + "." + u2);
    JoinDots(u1, x, u2);
  }

  lemma JoinDots(u1: string, x: string, u2: string)
    ensures u1 + ("." + x + "." + u2) == u1 + "." + x + "." + u2
  {
  }

  lemma JoinAfter(a: string, b: string, c: string)
    ensures a + (b + c) == a + b + c
  {
  }

  /** A template without wildcards and `me` segments matches itself. */
  lemma PlainCompiledMatchesItself(w: string, authId: string)
    requires '*' !in w && '#' !in w && WithoutMeSegment(w)
    ensures MatchFrom(Compile(w, authId), w)
  {
    CompileWithoutMe(w, authId);
    PlainTemplate(w, w);
  }

  /** So `users.me.read` grants `users.<auth_id>.read`: every plain template
      with one `.me.` segment grants the `auth_id` in its place. */
  lemma InnerMePlainGrants(w1: string, w2: string, authId: string)
    requires '*' !in w1 && '#' !in w1 && '*' !in w2 && '#' !in w2
    requires TextFreeOfInnerMe(w1 + ".me") && WithoutMeSegment(w2) && w2 != "me"
    ensures AclMatches(w1 + ".me." + w2, authId, w1 + "." + authId + "." + w2)
    ensures AclMatches(w1 + ".me." + w2, authId, w1 + ".me." + w2)
  {
    PlainTemplate(w1, w1);
    PlainCompiledMatchesItself(w2, authId);
    InnerMeGrants(w1, w2, authId, w1, authId, w2);
    InnerMeGrants(w1, w2, authId, w1, "me", w2);
    DotMeJoin(w1, w2);
  }

  /** With two `.me.` segments, as in `a.me.b.me.c`, both are rewritten:
      the scan goes on after the first replacement. */
  lemma CompileTwoInnerMe(w1: string, w2: string, w3: string, authId: string)
    requires TextFreeOfInnerMe(w1 + ".me") && TextFreeOfInnerMe(w2 + ".me") && w3 != "me"
    ensures Compile(w1 + ".me." + w2 + ".me." + w3, authId) ==
            Escape(w1) + ([Lit('.'), MeOrId(authId), Lit('.')] +
              (Escape(w2) + ([Lit('.'), MeOrId(authId), Lit('.')] + Compile(w3, authId))))
  {
    var rest := w2 + ".me." + w3;
    CompileInnerMe(w2, w3, authId);
    assert |rest| >= 4;
    CompileInnerMe(w1, rest, authId);
    assert w1 + ".me." + rest == w1 + ".me." + w2 + ".me." + w3;
  }

  lemma DotMeJoin(w1: string, w2: string)
    ensures w1 + "." + "me" + "." + w2 == w1 + ".me." + w2
  {
    assert "." + "me" + "." == ".me.";
    JoinAfter(w1, ".me.", w2);
    assert w1 + "." + "me" + "." + w2 == w1 + ("." + "me" + ".") + w2;
  }

  /** Every template made of a plain first part and a trailing `.me`, with no
      `.me.` segment in it, compiles to its escaped first part, a dot and one
      `me`-or-`auth_id` alternative. */
  lemma CompileSingleTrailingMe(w: string, authId: string)
    requires TextFreeOfInnerMe(w + ".me")
    ensures Compile(w + ".me", authId) == Escape(w) + [Lit('.'), MeOrId(authId)]
  {
    var e := Escape(w + ".me");
    EscapeDotMe(w);
    assert ReplaceInnerMe(e, authId) == e by {
      EscapeFreeOfInnerMe(w + ".me");
      NoInnerMe(e, authId);
    }
    var r := ReplaceTrailingMe(e, authId);
    assert r[..|r| - 2] == Escape(w);
    assert r == r[..|r| - 2] + r[|r| - 2..];
  }

  /** Such a template (say `a.b.me`) grants its first part followed by `.me`
      or by `.<auth_id>`, and no other last segment. */
  lemma TrailingMeGrantsExactly(w: string, authId: string, x: string)
    requires '*' !in w && '#' !in w && TextFreeOfInnerMe(w + ".me")
    requires '\n' !in x
    ensures AclMatches(w + ".me", authId, w + "." + x) <==> x == "me" || x == authId
  {
    var s := w + "." + x;
    var q := [Lit('.'), MeOrId(authId)];
    assert s[|s| - 1] != '\n' by {
      if x != [] {
        assert s[|s| - 1] == x[|x| - 1];
        assert x[|x| - 1] in x;
      } else {
        assert s[|s| - 1] == '.';
      }
    }
    CompileSingleTrailingMe(w, authId);
    PlainPrefix(w, q, s);
    assert s[|w|..] == "." + x;
    DotMeOrId(authId, x);
  }

  /** A dot and a `me` alternative match exactly `.me` and `.<auth_id>`. */
  lemma DotMeOrId(authId: string, x: string)
    ensures MatchFrom([Lit('.'), MeOrId(authId)], "." + x) <==> x == "me" || x == authId
  {
    var q := [Lit('.'), MeOrId(authId)];
    assert q[1..] == [MeOrId(authId)];
    assert ("." + x)[1..] == x;
    assert MatchFrom(q, "." + x) <==> MatchFrom([MeOrId(authId)], x);
    assert "me" <= x && x[2..] == [] ==> x == "me";
    assert authId <= x && x[|authId|..] == [] ==> x == authId;
    assert x == "me" ==> x[2..] == [];
    assert x == authId ==> x[|authId|..] == [];
  }

  /** A leading `me.` is not rewritten: `me.a` only grants itself. */
  lemma LeadingMeIsLiteral(authId: string, s: string)
    requires '\n' !in s
    ensures AclMatches("me.a", authId, s) <==> s == "me.a"
  {
    assert TextFreeOfInnerMe("me.a") by {
      assert "me.a"[..4][0] != ".me."[0];
      assert "me.a"[1..] == "e.a";
    }
    assert "me.a"[1..] == "e.a";
    PlainTemplateGrants("me.a", authId, s);
    assert s != "me.a" + "\n" by {
      assert ("me.a" + "\n")[4] == '\n';
    }
  }

  /** The `me` rewriting runs left to right without overlap: in `x.me.me.y`,
      for every two characters `x` and `y`, only the first `me` becomes
      `(me|<auth_id>)`. */
  lemma CompileOverlappingMe(x: char, y: char, authId: string)
    ensures Compile([x, '.', 'm', 'e', '.', 'm', 'e', '.', y], authId) ==
            [EscapeChar(x), Lit('.'), MeOrId(authId), Lit('.'), Lit('m'), Lit('e'), Lit('.'), EscapeChar(y)]
  {
    var inner := [EscapeChar(x), Lit('.'), MeOrId(authId), Lit('.'), Lit('m'), Lit('e'), Lit('.'), EscapeChar(y)];
    OverlappingEscape(x, y);
    OverlappingInner(EscapeChar(x), EscapeChar(y), authId);
    assert ReplaceTrailingMe(inner, authId) == inner by {
      assert inner[|inner| - 3..][0] != TrailingMe[0];
    }
  }

  /** Helper of CompileOverlappingMe: the escaped template. */
  lemma OverlappingEscape(x: char, y: char)
    ensures Escape([x, '.', 'm', 'e', '.', 'm', 'e', '.', y]) ==
            [EscapeChar(x), Lit('.'), Lit('m'), Lit('e'), Lit('.'), Lit('m'), Lit('e'), Lit('.'), EscapeChar(y)]
  {
    EscapeAt([x, '.', 'm', 'e', '.', 'm', 'e', '.', y]);
  }

  /** Helper of CompileOverlappingMe: the inner rewriting. */
  lemma OverlappingInner(a: Atom, b: Atom, authId: string)
    ensures ReplaceInnerMe([a, Lit('.'), Lit('m'), Lit('e'), Lit('.'), Lit('m'), Lit('e'), Lit('.'), b], authId) ==
            [a, Lit('.'), MeOrId(authId), Lit('.'), Lit('m'), Lit('e'), Lit('.'), b]
  {
    var tail := [Lit('m'), Lit('e'), Lit('.'), b];
    var e := [a, Lit('.'), Lit('m'), Lit('e'), Lit('.'), Lit('m'), Lit('e'), Lit('.'), b];
    var e1 := [Lit('.'), Lit('m'), Lit('e'), Lit('.'), Lit('m'), Lit('e'), Lit('.'), b];
    assert ReplaceInnerMe(tail, authId) == tail by {
      assert FreeOfInnerMe(tail) by { assert tail[..4][0] != InnerMe[0]; }
      NoInnerMe(tail, authId);
    }
    assert ReplaceInnerMe(e1, authId) == [Lit('.'), MeOrId(authId), Lit('.')] + tail by {
      assert e1[..4] == InnerMe && e1[4..] == tail;
    }
    assert ReplaceInnerMe(e, authId) == [a] + ReplaceInnerMe(e1, authId) by {
      assert e[..4][1] != InnerMe[1];
      assert e[1..] == e1;
    }
  }

  /** One step of MatchFrom on a `(me|<auth_id>)` atom. */
  lemma MeOrIdStep(authId: string, q: seq<Atom>, s: string)
    ensures MatchFrom([MeOrId(authId)] + q, s) <==>
            ("me" <= s && MatchFrom(q, s[2..])) || (authId <= s && MatchFrom(q, s[|authId|..]))
  {
    assert ([MeOrId(authId)] + q)[1..] == q;
  }

  /** A plain template matches exactly itself. */
  lemma PlainTemplate(w: string, s: string)
    requires '*' !in w && '#' !in w
    ensures MatchFrom(Escape(w), s) <==> s == w
  {
    PlainPrefix(w, [], s);
    assert Escape(w) + [] == Escape(w);
    SplitAt(w, [], s);
    assert w + [] == w;
  }

  lemma SplitAt(a: string, b: string, s: string)
    ensures s == a + b <==> a <= s && s[|a|..] == b
  {
    if a <= s {
      assert s == a + s[|a|..];
    }
  }

  /** A `me` segment between two plain parts: the input is the first part,
      then `me` or the `auth_id`, then the second part. */
  lemma PlainAroundMe(w1: string, authId: string, w2: string, s: string)
    requires '*' !in w1 && '#' !in w1 && '*' !in w2 && '#' !in w2
    ensures MatchFrom(Escape(w1) + ([MeOrId(authId)] + Escape(w2)), s) <==>
            s == w1 + ("me" + w2) || s == w1 + (authId + w2)
  {
    var tail := Escape(w2);
    PlainPrefix(w1, [MeOrId(authId)] + tail, s);
    SplitAt(w1, "me" + w2, s);
    SplitAt(w1, authId + w2, s);
    if w1 <= s {
      var r := s[|w1|..];
      MeOrIdStep(authId, tail, r);
      SplitAt("me", w2, r);
      SplitAt(authId, w2, r);
      if "me" <= r {
        PlainTemplate(w2, r[2..]);
      }
      if authId <= r {
        PlainTemplate(w2, r[|authId|..]);
      }
    }
  }

  /** The compiled `x.me.me.y`, for plain `x` and `y`, split around its one
      `me` alternative. */
  lemma OverlappingAroundMe(x: char, y: char, authId: string)
    requires x != '*' && x != '#' && y != '*' && y != '#'
    ensures Compile([x, '.', 'm', 'e', '.', 'm', 'e', '.', y], authId) ==
            Escape([x, '.']) + ([MeOrId(authId)] + Escape(['.', 'm', 'e', '.', y]))
  {
    CompileOverlappingMe(x, y, authId);
    EscapeAt([x, '.']);
    EscapeAt(['.', 'm', 'e', '.', y]);
  }

  /** In `x.me.me.y` the first `me` accepts the token's `auth_id`... */
  lemma NonOverlappingMeGrants(x: char, y: char, authId: string)
    requires x != '*' && x != '#' && y != '*' && y != '#'
    ensures AclMatches([x, '.', 'm', 'e', '.', 'm', 'e', '.', y], authId, [x, '.'] + authId + ['.', 'm', 'e', '.', y])
  {
    var s := [x, '.'] + authId + ['.', 'm', 'e', '.', y];
    OverlappingAroundMe(x, y, authId);
    PlainAroundMe([x, '.'], authId, ['.', 'm', 'e', '.', y], s);
    assert s == [x, '.'] + (authId + ['.', 'm', 'e', '.', y]);
  }

  /** ... while the second `me` stays literal. */
  lemma NonOverlappingMeRefuses(x: char, y: char, authId: string)
    requires x != '*' && x != '#' && y != '*' && y != '#' && y != '\n'
    requires '.' !in authId && authId != "me"
    ensures !AclMatches([x, '.', 'm', 'e', '.', 'm', 'e', '.', y], authId, [x, '.', 'm', 'e', '.'] + authId + ['.', y])
  {
    var bad := [x, '.', 'm', 'e', '.'] + authId + ['.', y];
    OverlappingAroundMe(x, y, authId);
    PlainAroundMe([x, '.'], authId, ['.', 'm', 'e', '.', y], bad);
    assert bad[|bad| - 1] == y;
    NotLiteralReading(x, y, authId);
    NotAuthIdReading(x, y, authId);
  }

  lemma NotLiteralReading(x: char, y: char, authId: string)
    requires authId != "me"
    ensures [x, '.', 'm', 'e', '.'] + authId + ['.', y] != [x, '.'] + ("me" + ['.', 'm', 'e', '.', y])
  {
    var bad := [x, '.', 'm', 'e', '.'] + authId + ['.', y];
    if |authId| == 2 {
      assert bad[5..7] == authId;
      assert ([x, '.'] + ("me" + ['.', 'm', 'e', '.', y]))[5..7] == "me";
    }
  }

  lemma NotAuthIdReading(x: char, y: char, authId: string)
    requires '.' !in authId && authId != "me"
    ensures [x, '.', 'm', 'e', '.'] + authId + ['.', y] != [x, '.'] + (authId + ['.', 'm', 'e', '.', y])
  {
    var bad := [x, '.', 'm', 'e', '.'] + authId + ['.', y];
    var other := [x, '.'] + (authId + ['.', 'm', 'e', '.', y]);
    if |authId| >= 3 {
      assert other[4] == authId[2];
      assert bad[4] == '.';
      assert authId[2] in authId;
    } else if |authId| == 2 {
      assert other[2..4] == authId;
      assert bad[2..4] == "me";
    } else {
      assert other[2 + |authId|] == '.';
    }
  }
}
