/** Pattern matching of file names (src/fnmatch.c).

    The source parses the pattern while it matches, takes shortcuts for '*' and recurses only
    for a '*' it cannot shortcut. The specification is in two steps that know nothing of each
    other: Tokens splits a pattern, InLanguage says which strings a list of tokens denotes. */
module Fnmatch {
  import opened Options

  /** NUL-terminated strings. */
  type CString = s: string | '\0' !in s

  datatype Flags = Flags(
    noescape: bool, pathname: bool, period: bool, leadingDir: bool, casefold: bool, prefixDirs: bool)

  const EOS := '\0'

  function At(s: string, k: nat): char { if k < |s| then s[k] else EOS }

  /** tolower in the C locale. */
  function Lower(c: char): char { if 'A' <= c <= 'Z' then c + ('a' - 'A') else c }

  function Fold(c: char, f: Flags): char { if f.casefold then Lower(c) else c }

  // ----- tokens -----

  datatype Item = Single(c: char) | Range(lo: char, hi: char)

  /** Sep is an unescaped '/'; Never is a bracket expression that is not closed. */
  datatype Token = Any | Star | Lit(c: char) | Sep | Class(negated: bool, items: seq<Item>) | Never

  datatype Items = Unclosed | Closed(items: seq<Item>, next: nat)

  /** One character of a bracket expression at k, possibly escaped: the character (EOS at the
      end of the pattern) and the index after it. */
  function Element(p: string, k: nat, f: Flags): (r: (char, nat))
    requires k < |p|
    ensures r.1 > k && (r.0 != EOS ==> r.1 <= |p|)
  {
    if p[k] == '\\' && !f.noescape then (At(p, k + 1), k + 2) else (p[k], k + 1)
  }

  /** The items of a bracket expression from k on. The first unescaped ']' closes it, also
      when it comes first. */
  function BracketItems(p: string, k: nat, f: Flags): (r: Items)
    requires k <= |p|
    ensures r.Closed? ==> k < r.next <= |p|
    decreases |p| - k
  {
    if k == |p| then Unclosed
    else if p[k] == ']' then Closed([], k + 1)
    else
      var (c, k1) := Element(p, k, f);
      if c == EOS then Unclosed
      else if At(p, k1) == '-' && At(p, k1 + 1) != EOS && At(p, k1 + 1) != ']' then
        var (c2, k2) := Element(p, k1 + 1, f);
        if c2 == EOS then Unclosed else WithItem(Range(c, c2), BracketItems(p, k2, f))
      else WithItem(Single(c), BracketItems(p, k1, f))
  }

  function WithItem(item: Item, r: Items): Items {
    if r.Closed? then Closed([item] + r.items, r.next) else Unclosed
  }

  /** The tokens of the pattern from k on. */
  function Tokens(p: string, k: nat, f: Flags): seq<Token>
    requires k <= |p|
    decreases |p| - k
  {
    if k == |p| then []
    else if p[k] == '?' then [Any] + Tokens(p, k + 1, f)
    else if p[k] == '*' then [Star] + Tokens(p, k + 1, f)
    else if p[k] == '[' then
      var negated := At(p, k + 1) == '!' || At(p, k + 1) == '^';
      var r := BracketItems(p, if negated then k + 2 else k + 1, f);
      if r.Unclosed? then [Never] else [Class(negated, r.items)] + Tokens(p, r.next, f)
    else if p[k] == '\\' && !f.noescape then
      if k + 1 == |p| then [Lit('\\')] else [Lit(p[k + 1])] + Tokens(p, k + 2, f)
    else if p[k] == '/' then [Sep] + Tokens(p, k + 1, f)
    else [Lit(p[k])] + Tokens(p, k + 1, f)
  }

  // ----- the language of a list of tokens -----

  predicate InItem(item: Item, c: char, f: Flags) {
    match item
    case Single(x) => Fold(x, f) == Fold(c, f)
    case Range(lo, hi) => Fold(lo, f) <= Fold(c, f) <= Fold(hi, f)
  }

  predicate InItems(items: seq<Item>, c: char, f: Flags) {
    exists item :: item in items && InItem(item, c, f)
  }

  /** A token other than Star matches the single character c. */
  predicate Accepts(t: Token, c: char, f: Flags) {
    match t
    case Any => !(c == '/' && f.pathname)
    case Star => false
    case Lit(x) => x == c || Fold(x, f) == Fold(c, f)
    case Sep => c == '/'
    case Class(negated, items) => !(c == '/' && f.pathname) && InItems(items, c, f) != negated
    case Never => false
  }

  /** The meaning of a pattern, without the rules about leading periods and prefixes. */
  ghost predicate InLanguage(ts: seq<Token>, s: string, f: Flags)
    decreases |ts|
  {
    if ts == [] then s == "" || (f.leadingDir && s[0] == '/')
    else if ts[0] == Star then
      exists n: nat :: n <= |s| && (f.pathname ==> '/' !in s[..n]) && InLanguage(ts[1..], s[n..], f)
    else
      s != "" && Accepts(ts[0], s[0], f) && InLanguage(ts[1..], s[1..], f)
  }

  // ----- the same at an index, with the leading-period rule as the source applies it -----

  /** A '*' may stand for s[i..j]. */
  predicate Spans(s: string, i: nat, j: nat, f: Flags) {
    i <= j <= |s| && (f.pathname ==> forall k :: i <= k < j ==> s[k] != '/')
  }

  /** A period that '?' and '*' do not match. */
  predicate GuardedPeriod(s: string, i: nat, f: Flags) {
    f.period && i < |s| && s[i] == '.' && (i == 0 || (f.pathname && s[i - 1] == '/'))
  }

  function NoPeriod(f: Flags): Flags { f.(period := false) }

  /** The source keeps the leading-period rule past a run of stars only when an unescaped '/'
      follows and separators are significant; its recursive calls drop the rule. */
  function AfterStar(ts: seq<Token>, f: Flags): Flags
  {
    if ts == [] then NoPeriod(f)
    else if ts[0] == Star then AfterStar(ts[1..], f)
    else if ts[0] == Sep && f.pathname then f
    else NoPeriod(f)
  }

  ghost predicate Matches(ts: seq<Token>, s: string, i: nat, f: Flags)
    requires i <= |s|
    decreases |ts|
  {
    if ts == [] then i == |s| || (f.leadingDir && s[i] == '/')
    else if ts[0] == Star then
      && !GuardedPeriod(s, i, f)
      && exists j: nat :: Spans(s, i, j, f) && Matches(ts[1..], s, j, AfterStar(ts[1..], f))
    else
      && i < |s| && Accepts(ts[0], s[i], f) && !(ts[0] == Any && GuardedPeriod(s, i, f))
      && Matches(ts[1..], s, i + 1, f)
  }

  /** A star spans the same stretch of the string and of its rest from i on. */
  lemma SpanOfRest(s: string, i: nat, j: nat, f: Flags)
    requires i <= j <= |s|
    ensures s[i..][j - i..] == s[j..]
    ensures Spans(s, i, j, f) <==> (f.pathname ==> '/' !in s[i..][..j - i])
  {
    var part := s[i..][..j - i];
    assert part == s[i..j];
    assert forall k :: i <= k < j ==> s[k] == part[k - i];
  }

  lemma StarOfRest(ts: seq<Token>, s: string, i: nat, f: Flags)
    requires i <= |s| && forall j: nat :: i <= j <= |s| ==> (Matches(ts, s, j, f) <==> InLanguage(ts, s[j..], f))
    ensures (exists j: nat :: Spans(s, i, j, f) && Matches(ts, s, j, f)) <==>
      exists n: nat :: n <= |s[i..]| && (f.pathname ==> '/' !in s[i..][..n]) && InLanguage(ts, s[i..][n..], f)
  {
    hide Matches, InLanguage;
    if exists j: nat :: Spans(s, i, j, f) && Matches(ts, s, j, f) {
      var j: nat :| Spans(s, i, j, f) && Matches(ts, s, j, f);
      SpanOfRest(s, i, j, f);
      var n := j - i;
      assert n <= |s[i..]| && (f.pathname ==> '/' !in s[i..][..n]) && InLanguage(ts, s[i..][n..], f);
    }
    if exists n: nat :: n <= |s[i..]| && (f.pathname ==> '/' !in s[i..][..n]) && InLanguage(ts, s[i..][n..], f) {
      var n: nat :| n <= |s[i..]| && (f.pathname ==> '/' !in s[i..][..n]) && InLanguage(ts, s[i..][n..], f);
      SpanOfRest(s, i, i + n, f);
      assert Spans(s, i, i + n, f) && Matches(ts, s, i + n, f);
    }
  }

  /** Without the period rule this is the language of the tokens. */
  lemma {:induction false} MatchesIsLanguage(ts: seq<Token>, s: string, i: nat, f: Flags)
    requires i <= |s| && !f.period
    ensures Matches(ts, s, i, f) <==> InLanguage(ts, s[i..], f)
    decreases |ts|
  {
    if ts == [] {
    } else if ts[0] == Star {
      var r := ts[1..];
      AfterStarFlags(r, f);
      forall j: nat | i <= j <= |s| ensures Matches(r, s, j, f) <==> InLanguage(r, s[j..], f) {
        MatchesIsLanguage(r, s, j, f);
      }
      StarOfRest(r, s, i, f);
    } else if i < |s| {
      MatchesIsLanguage(ts[1..], s, i + 1, f);
      assert s[i..][1..] == s[i + 1..];
    }
  }

  lemma {:induction false} AfterStarFlags(ts: seq<Token>, f: Flags)
    ensures AfterStar(ts, f) == f || AfterStar(ts, f) == NoPeriod(f)
  {
    if ts == [] {
    } else if ts[0] == Star {
      AfterStarFlags(ts[1..], f);
    }
  }

  // ----- the same with FNM_PREFIX_DIRS, as the source applies it -----

  predicate Slash(t: Token) { t == Sep || t == Lit('/') }

  predicate Literal(t: Token) { t.Lit? || t == Sep }

  /** At the end of the string a literal lets it pass as a directory prefix: a slash if the call of
      fnmatch, which started at b, has come any further, and any literal if it has come past a '/'
      and no further. */
  predicate Cut(t: Token, s: string, b: nat, i: nat, f: Flags)
    requires b <= |s|
  {
    f.prefixDirs && Literal(t) && i == |s| && ((Slash(t) && i != b) || (i == b + 1 && s[b] == '/'))
  }

  /** After a run of stars the source goes on in the same call only when an unescaped '/' follows and
      separators are significant. */
  predicate SameCall(ts: seq<Token>, f: Flags) {
    ts != [] && if ts[0] == Star then SameCall(ts[1..], f) else ts[0] == Sep && f.pathname
  }

  /** Whatever follows a run of stars is not tried at the very end. */
  predicate TriedAt(ts: seq<Token>, s: string, j: nat) { ts == [] || ts[0] == Star || j < |s| }

  ghost predicate Follows(ts: seq<Token>, s: string, b: nat, i: nat, f: Flags)
    requires b <= i <= |s|
    decreases |ts|, 0
  {
    if ts == [] then i == |s| || (f.leadingDir && s[i] == '/')
    else if ts[0] == Star then
      !GuardedPeriod(s, i, f) && exists j: nat :: Spans(s, i, j, f) && Resumes(ts[1..], s, b, j, f)
    else if i == |s| then Cut(ts[0], s, b, i, f)
    else
      && Accepts(ts[0], s[i], f) && !(ts[0] == Any && GuardedPeriod(s, i, f))
      && Follows(ts[1..], s, b, i + 1, f)
  }

  /** The rest of the pattern follows a star that reached j. */
  ghost predicate Resumes(ts: seq<Token>, s: string, b: nat, j: nat, f: Flags)
    requires b <= j <= |s|
    decreases |ts|, 1
  {
    TriedAt(ts, s, j) && Follows(ts, s, if SameCall(ts, f) then b else j, j, AfterStar(ts, f))
  }

  /** Without FNM_PREFIX_DIRS the start of the call makes no difference. */
  lemma {:induction false} FollowsPlain(ts: seq<Token>, s: string, b: nat, i: nat, f: Flags)
    requires b <= i <= |s| && !f.prefixDirs
    ensures Follows(ts, s, b, i, f) <==> Matches(ts, s, i, f)
    decreases |ts|
  {
    if ts == [] {
    } else if ts[0] == Star {
      var r, g := ts[1..], AfterStar(ts[1..], f);
      AfterStarFlags(r, f);
      forall j: nat | Spans(s, i, j, f) ensures Resumes(r, s, b, j, f) <==> Matches(r, s, j, g) {
        FollowsPlain(r, s, if SameCall(r, f) then b else j, j, g);
        if !TriedAt(r, s, j) { NeedsCharacter(r, s, g); }
      }
    } else if i < |s| {
      FollowsPlain(ts[1..], s, b, i + 1, f);
    }
  }

  /** Tokens that do not start with a star need at least one character. */
  lemma NeedsCharacter(ts: seq<Token>, s: string, f: Flags)
    requires ts != [] && ts[0] != Star
    ensures !Matches(ts, s, |s|, f)
  {}

  // ----- the shortcuts -----

  /** Consecutive stars collapse. */
  lemma CollapseStars(ts: seq<Token>, s: string, b: nat, i: nat, f: Flags)
    requires b <= i <= |s| && ts != [] && ts[0] == Star
    ensures Follows([Star] + ts, s, b, i, f) <==> Follows(ts, s, b, i, f)
  {
    var g, r := AfterStar(ts, f), ts[1..];
    assert ([Star] + ts)[1..] == ts;
    AfterStarFlags(r, f);
    assert AfterStar(r, g) == g by { AfterStarTwice(r, f); }
    SameCallAlike(r, f);
    if Follows([Star] + ts, s, b, i, f) {
      var j: nat :| Spans(s, i, j, f) && Resumes(ts, s, b, j, f);
      var b' := if SameCall(ts, f) then b else j;
      assert Follows(ts, s, b', j, g);
      var k: nat :| Spans(s, j, k, g) && Resumes(r, s, b', k, g);
      assert Spans(s, i, k, f) && Resumes(r, s, b, k, f);
    }
    if Follows(ts, s, b, i, f) {
      var k: nat :| Spans(s, i, k, f) && Resumes(r, s, b, k, f);
      var b' := if SameCall(ts, f) then b else i;
      assert Spans(s, i, k, g) && Resumes(r, s, b', k, g);
      assert Follows(ts, s, b', i, g);
      assert Spans(s, i, i, f) && Resumes(ts, s, b, i, f);
    }
  }

  lemma {:induction false} SameCallAlike(ts: seq<Token>, f: Flags)
    ensures SameCall(ts, AfterStar(ts, f)) <==> SameCall(ts, f)
  {
    AfterStarFlags(ts, f);
    if ts == [] {
    } else if ts[0] == Star {
      SameCallAlike(ts[1..], f);
    }
  }

  lemma {:induction false} AfterStarTwice(ts: seq<Token>, f: Flags)
    ensures AfterStar(ts, AfterStar(ts, f)) == AfterStar(ts, f)
  {
    if ts == [] {
    } else if ts[0] == Star {
      AfterStarTwice(ts[1..], f);
    }
  }

  /** A final star matches the rest, up to a separator where those are significant. */
  lemma StarAtEnd(s: string, b: nat, i: nat, f: Flags)
    requires b <= i <= |s| && !GuardedPeriod(s, i, f)
    ensures Follows([Star], s, b, i, f) <==> !f.pathname || f.leadingDir || '/' !in s[i..]
  {
    assert [Star][1..] == [];
    var j := FirstSlash(s, i);
    if !f.pathname || '/' !in s[i..] {
      assert forall k :: i <= k < |s| ==> s[k] == s[i..][k - i];
      assert Spans(s, i, |s|, f) && Resumes([], s, b, |s|, f);
    } else if f.leadingDir {
      assert Spans(s, i, j, f) && Resumes([], s, b, j, f);
    }
  }

  /** strchr(s + i, '/'), or |s|. */
  function FirstSlash(s: string, i: nat): (j: nat)
    requires i <= |s|
    ensures i <= j <= |s| && (forall k :: i <= k < j ==> s[k] != '/') && (j < |s| ==> s[j] == '/')
    ensures j == |s| <==> '/' !in s[i..]
    decreases |s| - i
  {
    if i == |s| || s[i] == '/' then
      assert i < |s| ==> s[i..][0] == '/';
      i
    else
      assert s[i..] == [s[i]] + s[i + 1..];
      FirstSlash(s, i + 1)
  }

  /** A star before a separator runs exactly to the next separator. */
  lemma StarBeforeSeparator(ts: seq<Token>, s: string, b: nat, i: nat, f: Flags)
    requires b <= i <= |s| && ts != [] && ts[0] == Sep && f.pathname && !GuardedPeriod(s, i, f)
    ensures var j := FirstSlash(s, i); Follows([Star] + ts, s, b, i, f) <==> j < |s| && Follows(ts, s, b, j, f)
  {
    assert ([Star] + ts)[1..] == ts;
    var j := FirstSlash(s, i);
    if j < |s| && Follows(ts, s, b, j, f) {
      assert Spans(s, i, j, f) && Resumes(ts, s, b, j, f);
    }
    if Follows([Star] + ts, s, b, i, f) {
      var k: nat :| Spans(s, i, k, f) && Resumes(ts, s, b, k, f);
      assert Follows(ts, s, b, k, f);
      assert s[k] == '/' && k == j;
    }
  }

  // ----- the source's two functions -----

  lemma WithItemMember(item: Item, items: seq<Item>, c: char, f: Flags)
    ensures InItems([item] + items, c, f) <==> InItem(item, c, f) || InItems(items, c, f)
  {
    assert forall x :: x in [item] + items <==> x == item || x in items;
  }

  /** rangematch, from the character after '[': the index after the closing bracket if it is
      closed and test is in the class. */
  method RangeMatch(p: CString, start: nat, test: char, f: Flags) returns (next: Option<nat>)
    requires start <= |p|
    ensures var negated := At(p, start) == '!' || At(p, start) == '^';
      && var r := BracketItems(p, if negated then start + 1 else start, f);
      next == if r.Closed? && InItems(r.items, test, f) != negated then Some(r.next) else None
  {
    var k := start;
    var negated := At(p, k) == '!' || At(p, k) == '^';
    if negated {
      k := k + 1;
    }
    ghost var all := BracketItems(p, k, f);
    var ok := false;
    while true
      invariant k <= |p|
      invariant var r := BracketItems(p, k, f);
        && r.Closed? == all.Closed?
        && (r.Closed? ==> r.next == all.next && (InItems(all.items, test, f) <==> ok || InItems(r.items, test, f)))
      decreases |p| - k
    {
      if At(p, k) == ']' {
        return if ok == negated then None else Some(k + 1);
      }
      if k == |p| {
        return None;
      }
      ghost var here := BracketItems(p, k, f);
      var (c, k1) := Element(p, k, f);
      if c == EOS {
        return None;
      }
      k := k1;
      var item := Single(c);
      if At(p, k) == '-' && At(p, k + 1) != EOS && At(p, k + 1) != ']' {
        var (c2, k2) := Element(p, k + 1, f);
        if c2 == EOS {
          return None;
        }
        k := k2;
        item := Range(c, c2);
      }
      if InItem(item, test, f) {
        ok := true;
      }
      ghost var rest := BracketItems(p, k, f);
      assert here == WithItem(item, rest);
      if rest.Closed? {
        WithItemMember(item, rest.items, test, f);
      }
    }
  }

  /** The loop that collapses a run of stars; k is the index after the first of them. */
  method SkipStars(p: CString, k: nat, f: Flags, ghost s: string, ghost b: nat, ghost i: nat) returns (k': nat)
    requires k <= |p| && b <= i <= |s|
    ensures k <= k' <= |p| && At(p, k') != '*'
    ensures Follows([Star] + Tokens(p, k, f), s, b, i, f) <==> Follows([Star] + Tokens(p, k', f), s, b, i, f)
  {
    k' := k;
    while At(p, k') == '*'
      invariant k <= k' <= |p|
      invariant Follows([Star] + Tokens(p, k, f), s, b, i, f) <==> Follows([Star] + Tokens(p, k', f), s, b, i, f)
      decreases |p| - k'
    {
      CollapseStars(Tokens(p, k', f), s, b, i, f);
      k' := k' + 1;
    }
  }

  lemma TokensHead(p: CString, k: nat, f: Flags)
    requires k < |p| && p[k] != '*'
    ensures Tokens(p, k, f) != [] && Tokens(p, k, f)[0] != Star
    ensures p[k] == '/' <==> Tokens(p, k, f)[0] == Sep
  {}

  /** The leading-period test of the source, relative to where its string started. */
  predicate Leading(s: string, start: nat, i: nat, f: Flags) {
    At(s, i) == '.' && f.period && (i == start || (f.pathname && i > 0 && At(s, i - 1) == '/'))
  }

  /** With FNM_PERIOD a call starts at the start of the string: the recursive calls are without. */
  predicate Specified(f: Flags, start: nat) { f.period ==> start == 0 }

  /** The general case of '*': try the rest of the pattern, from k, at every place the star
      may reach, except the very end. */
  method SearchStar(p: CString, k: nat, s: CString, ghost b: nat, i0: nat, f: Flags) returns (r: bool)
    requires k < |p| && p[k] != '*' && !(p[k] == '/' && f.pathname) && b <= i0 <= |s|
    ensures !GuardedPeriod(s, i0, f) ==> (r <==> Follows([Star] + Tokens(p, k, f), s, b, i0, f))
    decreases |p| - k, 4
  {
    ghost var ts, g := Tokens(p, k, f), NoPeriod(f);
    TokensHead(p, k, f);
    TokensNoPeriod(p, k, f);
    assert ([Star] + ts)[1..] == ts && AfterStar(ts, f) == g && !SameCall(ts, f);
    var i := i0;
    while i < |s|
      invariant Spans(s, i0, i, f)
      invariant forall j: nat :: i0 <= j < i ==> !Resumes(ts, s, b, j, f)
    {
      var here := Fnmatch(p, k, s, i, NoPeriod(f));
      if here {
        assert Resumes(ts, s, b, i, f);
        return true;
      }
      if s[i] == '/' && f.pathname {
        return false;
      }
      i := i + 1;
    }
    r := false;
  }

  /** Whether the period rule applies does not change how a pattern is split. */
  lemma {:induction false} TokensNoPeriod(p: string, k: nat, f: Flags)
    requires k <= |p|
    ensures Tokens(p, k, NoPeriod(f)) == Tokens(p, k, f)
    decreases |p| - k
  {
    if k == |p| {
    } else {
      if p[k] == '[' {
        var negated := At(p, k + 1) == '!' || At(p, k + 1) == '^';
        var k' := if negated then k + 2 else k + 1;
        ItemsNoPeriod(p, k', f);
        var r := BracketItems(p, k', f);
        if r.Closed? { TokensNoPeriod(p, r.next, f); }
      } else if p[k] == '\\' && !f.noescape {
        if k + 1 < |p| { TokensNoPeriod(p, k + 2, f); }
      } else {
        TokensNoPeriod(p, k + 1, f);
      }
    }
  }

  lemma {:induction false} ItemsNoPeriod(p: string, k: nat, f: Flags)
    requires k <= |p|
    ensures BracketItems(p, k, NoPeriod(f)) == BracketItems(p, k, f)
    decreases |p| - k
  {
    if k == |p| || p[k] == ']' {
    } else {
      assert Element(p, k, NoPeriod(f)) == Element(p, k, f);
      var (c, k1) := Element(p, k, f);
      if c != EOS {
        if At(p, k1) == '-' && At(p, k1 + 1) != EOS && At(p, k1 + 1) != ']' {
          assert Element(p, k1 + 1, NoPeriod(f)) == Element(p, k1 + 1, f);
          var (c2, k2) := Element(p, k1 + 1, f);
          if c2 != EOS { ItemsNoPeriod(p, k2, f); }
        } else {
          ItemsNoPeriod(p, k1, f);
        }
      }
    }
  }

  /** What one round of the source's loop does: return, or go on at new places. */
  datatype Round = Answer(r: bool) | On(k: nat, i: nat)

  /** The answer of one round, or the place it goes on at, is as good as the place before. */
  ghost predicate Sound(round: Round, p: CString, k: nat, s: CString, b: nat, i: nat, f: Flags)
    requires k <= |p| && b <= i <= |s|
  {
    match round
    case Answer(r) => r <==> Follows(Tokens(p, k, f), s, b, i, f)
    case On(k', i') =>
      && k' <= |p| && b <= i' <= |s|
      && (Follows(Tokens(p, k, f), s, b, i, f) <==> Follows(Tokens(p, k', f), s, b, i', f))
  }

  /** What a token other than a star asks of the place it is tried at. */
  lemma TokenTried(ts: seq<Token>, s: string, b: nat, i: nat, f: Flags)
    requires b <= i <= |s| && ts != [] && ts[0] != Star
    ensures i == |s| ==> (Follows(ts, s, b, i, f) <==> Cut(ts[0], s, b, i, f))
    ensures i < |s| ==>
      (Follows(ts, s, b, i, f) <==>
        && Accepts(ts[0], s[i], f) && !(ts[0] == Any && GuardedPeriod(s, i, f))
        && Follows(ts[1..], s, b, i + 1, f))
  {
  }

  /** The first token of a pattern that does not start with a star, and where the next one starts. */
  lemma FirstToken(p: CString, k: nat, f: Flags)
    requires k < |p| && p[k] != '*'
    ensures var ts := Tokens(p, k, f);
      && ts != [] && ts[0] != Star
      && (p[k] == '?' ==> ts[0] == Any && ts[1..] == Tokens(p, k + 1, f))
      && (p[k] == '[' ==>
          var negated := At(p, k + 1) == '!' || At(p, k + 1) == '^';
          var r := BracketItems(p, if negated then k + 2 else k + 1, f);
          if r.Unclosed? then ts[0] == Never else ts[0] == Class(negated, r.items) && ts[1..] == Tokens(p, r.next, f))
      && (p[k] != '?' && p[k] != '[' ==>
          var (c, next) := LiteralAt(p, k, f);
          && Literal(ts[0]) && (ts[0] == Lit(c) || (ts[0] == Sep && c == '/'))
          && next <= |p| && ts[1..] == Tokens(p, next, f))
  {
  }

  /** The literal at k, possibly escaped, and the index after it. */
  function LiteralAt(p: string, k: nat, f: Flags): (char, nat)
    requires k < |p|
  {
    if p[k] == '\\' && !f.noescape && k + 1 < |p| then (p[k + 1], k + 2) else (p[k], k + 1)
  }

  /** The cases '?', '[', '\\' and default. */
  method MatchOne(p: CString, k0: nat, s: CString, start: nat, i: nat, f: Flags) returns (round: Round)
    requires k0 < |p| && p[k0] != '*' && start <= i <= |s|
    ensures round.On? ==> k0 < round.k <= |p| && i <= round.i <= |s|
    ensures Specified(f, start) ==> Sound(round, p, k0, s, start, i, f)
  {
    FirstToken(p, k0, f);
    TokenTried(Tokens(p, k0, f), s, start, i, f);
    hide Tokens, Follows, BracketItems, InItems;
    var c, k := p[k0], k0 + 1;
    if c == '?' {
      if i == |s| || (s[i] == '/' && f.pathname) || Leading(s, start, i, f) {
        return Answer(false);
      }
    } else if c == '[' {
      if i == |s| || (s[i] == '/' && f.pathname) {
        return Answer(false);
      }
      var next := RangeMatch(p, k, s[i], f);
      if next == None {
        return Answer(false);
      }
      k := next.value;
    } else {
      if c == '\\' && !f.noescape && k < |p| {
        c := p[k];
        k := k + 1;
      }
      if i < |s| && (c == s[i] || (f.casefold && Lower(c) == Lower(s[i]))) {
      } else if f.prefixDirs && i == |s| && ((c == '/' && i != start) || (i == start + 1 && s[start] == '/')) {
        return Answer(true);
      } else {
        return Answer(false);
      }
    }
    return On(k, i + 1);
  }

  /** The case '*'. */
  method MatchStar(p: CString, k0: nat, s: CString, start: nat, i: nat, f: Flags) returns (round: Round)
    requires k0 < |p| && p[k0] == '*' && start <= i <= |s|
    ensures round.On? ==> k0 < round.k <= |p| && i <= round.i <= |s|
    ensures Specified(f, start) ==> Sound(round, p, k0, s, start, i, f)
    decreases |p| - k0, 2
  {
    var k := SkipStars(p, k0 + 1, f, s, start, i);
    if Leading(s, start, i, f) {
      return Answer(false);
    }
    if k == |p| {
      if Specified(f, start) { StarAtEnd(s, start, i, f); }
      return Answer(!f.pathname || f.leadingDir || FirstSlash(s, i) == |s|);
    }
    if p[k] == '/' && f.pathname {
      if Specified(f, start) { StarBeforeSeparator(Tokens(p, k, f), s, start, i, f); }
      var j := FirstSlash(s, i);
      return if j == |s| then Answer(false) else On(k, j);
    }
    var r := SearchStar(p, k, s, start, i, f);
    return Answer(r);
  }

  /** fnmatch on p[k0..] and s[i0..]; true is the source's 0. */
  method Fnmatch(p: CString, k0: nat, s: CString, i0: nat, f: Flags) returns (r: bool)
    requires k0 <= |p| && i0 <= |s|
    ensures Specified(f, i0) ==> (r <==> Follows(Tokens(p, k0, f), s, i0, i0, f))
    decreases |p| - k0, 3
  {
    var k, i := k0, i0;
    while k < |p|
      invariant k0 <= k <= |p| && i0 <= i <= |s|
      invariant Specified(f, i0) ==>
        (Follows(Tokens(p, k0, f), s, i0, i0, f) <==> Follows(Tokens(p, k, f), s, i0, i, f))
    {
      var round;
      if p[k] == '*' {
        round := MatchStar(p, k, s, i0, i, f);
      } else {
        round := MatchOne(p, k, s, i0, i, f);
      }
      if round.Answer? {
        return round.r;
      }
      k, i := round.k, round.i;
    }
    return (f.leadingDir && At(s, i) == '/') || i == |s|;
  }

  // ----- the leading-period rule kept throughout -----

  /** The meaning of a pattern when no star makes the rule about leading periods forgotten. */
  ghost predicate Strict(ts: seq<Token>, s: string, i: nat, f: Flags)
    requires i <= |s|
    decreases |ts|
  {
    if ts == [] then i == |s| || (f.leadingDir && s[i] == '/')
    else if ts[0] == Star then
      !GuardedPeriod(s, i, f) && exists j: nat :: Spans(s, i, j, f) && Strict(ts[1..], s, j, f)
    else
      && i < |s| && Accepts(ts[0], s[i], f) && !(ts[0] == Any && GuardedPeriod(s, i, f))
      && Strict(ts[1..], s, i + 1, f)
  }

  predicate Wild(t: Token) { t == Any || t == Star }

  /** Token k is a wildcard at the start of a path component. */
  predicate WildComponent(ts: seq<Token>, k: nat) {
    0 < k < |ts| && Slash(ts[k - 1]) && Wild(ts[k])
  }

  /** A star that the source handles by recursion: neither another star nor a separator follows. */
  predicate Recursive(ts: seq<Token>, a: nat) {
    a + 1 < |ts| && ts[a] == Star && ts[a + 1] != Star && ts[a + 1] != Sep
  }

  /** Behind such a star a path component starts with a wildcard. */
  ghost predicate Loses(ts: seq<Token>) {
    exists a: nat, k: nat :: a + 1 < k && Recursive(ts, a) && WildComponent(ts, k)
  }

  lemma LosesTail(ts: seq<Token>)
    requires ts != [] && Loses(ts[1..])
    ensures Loses(ts)
  {
    var a: nat, k: nat :| a + 1 < k && Recursive(ts[1..], a) && WildComponent(ts[1..], k);
    assert Recursive(ts, a + 1) && WildComponent(ts, k + 1);
  }

  lemma AcceptsNoPeriod(t: Token, c: char, f: Flags)
    ensures Accepts(t, c, NoPeriod(f)) <==> Accepts(t, c, f)
  {
    if t.Class? {
      assert forall item :: InItem(item, c, NoPeriod(f)) <==> InItem(item, c, f);
    }
  }

  /** Where separators are significant only the two kinds of slash match one. */
  lemma OnlySlash(t: Token, f: Flags)
    requires f.pathname && Accepts(t, '/', f)
    ensures Slash(t)
  {
  }

  /** A star never reaches a guarded period from a place that is not one. */
  lemma ReachedUnguarded(s: string, i: nat, j: nat, f: Flags)
    requires Spans(s, i, j, f) && !GuardedPeriod(s, i, f)
    ensures !GuardedPeriod(s, j, f)
  {
  }

  /** Where no component starts with a wildcard, forgetting the rule makes no difference. */
  lemma {:induction false} ForgottenAlike(ts: seq<Token>, s: string, i: nat, f: Flags)
    requires i <= |s| && (GuardedPeriod(s, i, f) ==> ts == [] || !Wild(ts[0]))
    requires f.pathname ==> forall k: nat :: !WildComponent(ts, k)
    ensures Matches(ts, s, i, NoPeriod(f)) <==> Strict(ts, s, i, f)
    decreases |ts|
  {
    if ts == [] {
    } else {
      var r, g := ts[1..], NoPeriod(f);
      assert forall k: nat :: WildComponent(r, k) ==> WildComponent(ts, k + 1);
      if ts[0] == Star {
        AfterStarFlags(r, g);
        forall j: nat | Spans(s, i, j, f) ensures Matches(r, s, j, g) <==> Strict(r, s, j, f) {
          ReachedUnguarded(s, i, j, f);
          ForgottenAlike(r, s, j, f);
        }
        assert forall j: nat :: Spans(s, i, j, f) <==> Spans(s, i, j, g);
      } else if i < |s| && Accepts(ts[0], s[i], f) {
        AcceptsNoPeriod(ts[0], s[i], f);
        if f.pathname && s[i] == '/' {
          OnlySlash(ts[0], f);
          assert r != [] && Wild(r[0]) ==> WildComponent(ts, 1);
        }
        ForgottenAlike(r, s, i + 1, f);
      } else if i < |s| {
        AcceptsNoPeriod(ts[0], s[i], f);
      }
    }
  }

  /** Behind the first star that forgets the rule no component starts with a wildcard. */
  lemma {:induction false} NothingLost(ts: seq<Token>, f: Flags)
    requires ts != [] && ts[0] == Star && !Loses(ts) && f.period && f.pathname
    requires AfterStar(ts[1..], f) != f
    ensures forall k: nat :: !WildComponent(ts[1..], k)
  {
    var r := ts[1..];
    if r == [] {
    } else if r[0] == Star {
      if Loses(r) { LosesTail(ts); }
      NothingLost(r, f);
      assert forall k: nat :: WildComponent(r, k) ==> k > 1 && WildComponent(r[1..], k - 1);
    } else {
      assert Recursive(ts, 0);
      forall k: nat ensures !WildComponent(r, k) {
        assert WildComponent(r, k) ==> WildComponent(ts, k + 1);
      }
    }
  }

  /** A pattern that loses nothing is matched by the rule. */
  lemma {:induction false} KeptAlike(ts: seq<Token>, s: string, i: nat, f: Flags)
    requires i <= |s| && f.period && (f.pathname ==> !Loses(ts))
    ensures Matches(ts, s, i, f) <==> Strict(ts, s, i, f)
    decreases |ts|
  {
    if ts == [] {
    } else {
      var r := ts[1..];
      if Loses(r) { LosesTail(ts); }
      if ts[0] == Star {
        AfterStarFlags(r, f);
        if !GuardedPeriod(s, i, f) {
          forall j: nat | Spans(s, i, j, f) ensures Matches(r, s, j, AfterStar(r, f)) <==> Strict(r, s, j, f) {
            if AfterStar(r, f) == f {
              KeptAlike(r, s, j, f);
            } else {
              if f.pathname { NothingLost(ts, f); }
              ReachedUnguarded(s, i, j, f);
              ForgottenAlike(r, s, j, f);
            }
          }
        }
      } else if i < |s| {
        KeptAlike(r, s, i + 1, f);
      }
    }
  }

  // ----- and what a pattern that loses it matches -----

  predicate NonEmpty(t: Token, f: Flags) {
    t == Star || exists c: char :: c != EOS && Accepts(t, c, f)
  }

  /** No bracket expression of the pattern is unclosed or empty, so that it matches something. */
  ghost predicate Possible(ts: seq<Token>, f: Flags) {
    forall k: nat :: k < |ts| ==> NonEmpty(ts[k], f)
  }

  /** A character for a token: a period for a wildcard that starts a component while the rule is
      forgotten. */
  ghost function Pick(t: Token, f: Flags, dot: bool): (c: char)
    requires NonEmpty(t, f) && f.pathname
    ensures c != EOS && (t != Star ==> Accepts(t, c, f)) && (c == '/' <==> Slash(t))
    ensures Wild(t) ==> c == if dot then '.' else 'a'
  {
    if Wild(t) then if dot then '.' else 'a'
    else
      var c: char :| c != EOS && Accepts(t, c, f);
      if c == '/' then OnlySlash(t, f); c else c
  }

  /** Whether the rule is forgotten behind the first token. */
  predicate Forgets(ts: seq<Token>, f: Flags)
    requires ts != []
  {
    ts[0] == Star && AfterStar(ts[1..], f) != f
  }

  /** A string with one character for each token. */
  ghost function Sample(ts: seq<Token>, f: Flags, forgotten: bool, afterSlash: bool): (s: string)
    requires Possible(ts, f) && f.pathname
    ensures |s| == |ts| && EOS !in s && forall k :: 0 <= k < |s| ==> (s[k] == '/' <==> Slash(ts[k]))
    decreases |ts|
  {
    if ts == [] then ""
    else
      assert NonEmpty(ts[0], f);
      [Pick(ts[0], f, forgotten && afterSlash)] + Sample(ts[1..], f, forgotten || Forgets(ts, f), Slash(ts[0]))
  }

  function Mode(f: Flags, forgotten: bool): Flags { if forgotten then NoPeriod(f) else f }

  /** The pattern matches its sample. */
  lemma {:induction false} SampleMatches(ts: seq<Token>, f: Flags, forgotten: bool, afterSlash: bool, s: string, i: nat)
    requires Possible(ts, f) && f.pathname && f.period && i <= |s|
    requires s[i..] == Sample(ts, f, forgotten, afterSlash)
    ensures Matches(ts, s, i, Mode(f, forgotten))
    decreases |ts|
  {
    if ts == [] {
    } else {
      var r, g := ts[1..], Mode(f, forgotten);
      assert NonEmpty(ts[0], f) && s[i] == s[i..][0] && s[i + 1..] == s[i..][1..];
      SampleMatches(r, f, forgotten || Forgets(ts, f), Slash(ts[0]), s, i + 1);
      if ts[0] == Star {
        AfterStarFlags(r, f);
        AfterStarFlags(r, NoPeriod(f));
        assert Spans(s, i, i + 1, g) && AfterStar(r, g) == Mode(f, forgotten || Forgets(ts, f));
      } else {
        AcceptsNoPeriod(ts[0], s[i], f);
      }
    }
  }

  lemma RecursiveForgets(ts: seq<Token>, f: Flags)
    requires Recursive(ts, 0) && f.period
    ensures Forgets(ts, f)
  {
  }

  lemma SampleNext(ts: seq<Token>, f: Flags, forgotten: bool, afterSlash: bool)
    requires Possible(ts, f) && f.pathname && ts != []
    ensures Possible(ts[1..], f)
    ensures Sample(ts, f, forgotten, afterSlash)[1..] == Sample(ts[1..], f, forgotten || Forgets(ts, f), Slash(ts[0]))
    ensures Wild(ts[0]) && forgotten && afterSlash ==> Sample(ts, f, forgotten, afterSlash)[0] == '.'
  {
    assert NonEmpty(ts[0], f);
    hide Accepts, NonEmpty, Forgets;
  }

  /** Where the pattern loses the rule the sample has a period. */
  lemma {:induction false} SampleDot(ts: seq<Token>, f: Flags, forgotten: bool, afterSlash: bool, k: nat)
    requires Possible(ts, f) && f.pathname && f.period && WildComponent(ts, k)
    requires forgotten || exists a: nat :: a + 1 < k && Recursive(ts, a)
    ensures Sample(ts, f, forgotten, afterSlash)[k] == '.'
    decreases |ts|
  {
    hide Sample, Possible, Forgets;
    var r, more := ts[1..], forgotten || Forgets(ts, f);
    SampleNext(ts, f, forgotten, afterSlash);
    assert Sample(ts, f, forgotten, afterSlash)[k] == Sample(r, f, more, Slash(ts[0]))[k - 1];
    if k == 1 {
      SampleNext(r, f, more, true);
    } else {
      assert WildComponent(r, k - 1);
      if !more {
        var a: nat :| a + 1 < k && Recursive(ts, a);
        if a == 0 { RecursiveForgets(ts, f); }
        assert Recursive(r, a - 1);
      }
      SampleDot(r, f, more, Slash(ts[0]), k - 1);
    }
  }

  function Slashes(s: string): nat {
    if s == "" then 0 else (if s[0] == '/' then 1 else 0) + Slashes(s[1..])
  }

  function SlashTokens(ts: seq<Token>): nat {
    if ts == [] then 0 else (if Slash(ts[0]) then 1 else 0) + SlashTokens(ts[1..])
  }

  lemma {:induction false} SlashesAlike(s: string, ts: seq<Token>)
    requires |s| == |ts| && forall k :: 0 <= k < |s| ==> (s[k] == '/' <==> Slash(ts[k]))
    ensures Slashes(s) == SlashTokens(ts)
  {
    if s == "" {
    } else {
      SlashesAlike(s[1..], ts[1..]);
    }
  }

  lemma {:induction false} NoSlashes(s: string, i: nat, j: nat, p: nat)
    requires i <= j <= p <= |s| && forall k :: i <= k < j ==> s[k] != '/'
    ensures Slashes(s[i..p]) == Slashes(s[j..p])
    decreases j - i
  {
    if i == j {
    } else {
      assert s[i..p][1..] == s[i + 1..p];
      NoSlashes(s, i + 1, j, p);
    }
  }

  /** Slashes in the string and in the pattern correspond one to one, so that a wildcard that starts
      a component is tried at the start of that component only: with a period there, it fails. */
  lemma {:induction false} Rigid(ts: seq<Token>, n: nat, s: string, i: nat, p: nat, f: Flags)
    requires f.pathname && f.period && WildComponent(ts, n + 1)
    requires i <= p && p + 1 < |s| && s[p] == '/' && s[p + 1] == '.'
    requires Slashes(s[i..p]) == SlashTokens(ts[..n])
    ensures !Strict(ts, s, i, f)
    decreases |ts|
  {
    var r := ts[1..];
    if n == 0 {
      assert i < p ==> s[i..p][0] == s[i];
    } else {
      assert WildComponent(r, n) && ts[..n][1..] == r[..n - 1];
      if ts[0] == Star {
        forall j: nat | Spans(s, i, j, f) ensures !Strict(r, s, j, f) {
          assert j <= p;
          NoSlashes(s, i, j, p);
          Rigid(r, n - 1, s, j, p, f);
        }
      } else if Accepts(ts[0], s[i], f) {
        if s[i] == '/' { OnlySlash(ts[0], f); }
        if i < p {
          assert s[i..p][1..] == s[i + 1..p];
          Rigid(r, n - 1, s, i + 1, p, f);
        }
      }
    }
  }

  /** The sample breaks the rule where its period stands. */
  lemma SampleBreaks(ts: seq<Token>, f: Flags, s: string, k: nat)
    requires f.pathname && f.period && WildComponent(ts, k) && |s| == |ts| && s[k] == '.'
    requires forall n :: 0 <= n < |s| ==> (s[n] == '/' <==> Slash(ts[n]))
    ensures !Strict(ts, s, 0, f)
  {
    hide Strict, Slashes, SlashTokens;
    SlashesAlike(s[..k - 1], ts[..k - 1]);
    assert s[0..k - 1] == s[..k - 1];
    Rigid(ts, k - 1, s, 0, k - 1, f);
  }

  /** A pattern that loses the rule matches a string that it should not. */
  lemma LostExample(ts: seq<Token>, f: Flags) returns (s: CString)
    requires f.pathname && f.period && Loses(ts) && Possible(ts, f)
    ensures Matches(ts, s, 0, f) && !Strict(ts, s, 0, f)
  {
    var a: nat, k: nat :| a + 1 < k && Recursive(ts, a) && WildComponent(ts, k);
    hide Sample, Matches, Strict, Possible, Recursive, WildComponent;
    s := Sample(ts, f, false, false);
    SampleDot(ts, f, false, false, k);
    SampleBreaks(ts, f, s, k);
    assert s[0..] == s;
    SampleMatches(ts, f, false, false, s, 0);
  }

  /** A pattern with nothing possible in one place matches nothing. */
  lemma {:induction false} Impossible(ts: seq<Token>, s: CString, i: nat, f: Flags, k: nat)
    requires i <= |s| && k < |ts| && !NonEmpty(ts[k], f)
    ensures !Matches(ts, s, i, f)
    decreases |ts|
  {
    var r := ts[1..];
    if k == 0 {
      assert i < |s| ==> s[i] in s;
    } else if ts[0] == Star {
      AfterStarFlags(r, f);
      forall j: nat | Spans(s, i, j, f) ensures !Matches(r, s, j, AfterStar(r, f)) {
        EmptyAlike(ts[k], f);
        Impossible(r, s, j, AfterStar(r, f), k - 1);
      }
    } else if i < |s| {
      Impossible(r, s, i + 1, f, k - 1);
    }
  }

  lemma EmptyAlike(t: Token, f: Flags)
    ensures NonEmpty(t, NoPeriod(f)) <==> NonEmpty(t, f)
  {
    forall c: char ensures Accepts(t, c, NoPeriod(f)) <==> Accepts(t, c, f) {
      AcceptsNoPeriod(t, c, f);
    }
  }

  /** The rule is only ever dropped. */
  lemma {:induction false} StrictMatches(ts: seq<Token>, s: string, i: nat, f: Flags, forgotten: bool)
    requires i <= |s| && Strict(ts, s, i, f)
    ensures Matches(ts, s, i, Mode(f, forgotten))
    decreases |ts|
  {
    if ts == [] {
    } else {
      var r, g := ts[1..], Mode(f, forgotten);
      if ts[0] == Star {
        var j: nat :| Spans(s, i, j, f) && Strict(r, s, j, f);
        AfterStarFlags(r, g);
        StrictMatches(r, s, j, f, AfterStar(r, g) == NoPeriod(f));
        assert Spans(s, i, j, g);
      } else {
        AcceptsNoPeriod(ts[0], s[i], f);
        StrictMatches(r, s, i + 1, f, forgotten);
      }
    }
  }

  /** Under FNM_PERIOD a pattern is matched by the rule on all strings if and only if separators are
      not significant, or the pattern does not lose the rule, or it matches nothing at all. */
  lemma PeriodRuleIff(ts: seq<Token>, f: Flags)
    requires f.period
    ensures (forall s: CString :: Matches(ts, s, 0, f) <==> Strict(ts, s, 0, f))
      <==> !(f.pathname && Loses(ts) && Possible(ts, f))
  {
    if f.pathname && Loses(ts) && Possible(ts, f) {
      var s := LostExample(ts, f);
    } else if f.pathname && Loses(ts) {
      var k: nat :| k < |ts| && !NonEmpty(ts[k], f);
      forall s: CString ensures Matches(ts, s, 0, f) <==> Strict(ts, s, 0, f) {
        Impossible(ts, s, 0, f, k);
        if Strict(ts, s, 0, f) { StrictMatches(ts, s, 0, f, false); }
      }
    } else {
      forall s: CString ensures Matches(ts, s, 0, f) <==> Strict(ts, s, 0, f) {
        KeptAlike(ts, s, 0, f);
      }
    }
  }

  // ----- what FNM_PREFIX_DIRS means -----

  /** A star at which a new call of fnmatch starts. */
  predicate Resets(ts: seq<Token>, a: int, f: Flags) {
    0 <= a && a + 1 < |ts| && ts[a] == Star && ts[a + 1] != Star && !(ts[a + 1] == Sep && f.pathname)
  }

  /** There is none before token n. */
  ghost predicate OneCall(ts: seq<Token>, n: nat, f: Flags) {
    forall a: nat :: a < n ==> !Resets(ts, a, f)
  }

  /** The tokens match the string to its end. */
  ghost predicate Whole(ts: seq<Token>, s: string, i: nat, f: Flags)
    requires i <= |s|
  {
    Matches(ts, s, i, f.(leadingDir := false))
  }

  /** The whole string matches the pattern up to token n, a literal that no star precedes. That literal
      is a slash with something before it; or the string is a single '/', the only character since
      the call started; or a star that starts a call stands before the token that matched the last
      character, a '/'. */
  ghost predicate PrefixAt(ts: seq<Token>, n: nat, s: string, b: nat, i: nat, f: Flags)
    requires b <= i <= |s|
  {
    && n < |ts| && Literal(ts[n]) && (n > 0 ==> ts[n - 1] != Star) && Whole(ts[..n], s, i, f)
    && Allowed(ts, n, s, b, i, f)
  }

  ghost predicate Allowed(ts: seq<Token>, n: nat, s: string, b: nat, i: nat, f: Flags)
    requires b <= i <= |s| && n < |ts|
  {
    || (Slash(ts[n]) && (n == 0 ==> i != b))
    || (if OneCall(ts, n, f) then |s| == b + 1 && s[b] == '/' else Resets(ts, n - 2, f) && s != "" && s[|s| - 1] == '/')
  }

  ghost predicate IsPrefix(ts: seq<Token>, s: string, b: nat, i: nat, f: Flags)
    requires b <= i <= |s|
  {
    exists n: nat :: PrefixAt(ts, n, s, b, i, f)
  }

  lemma OneCallTail(ts: seq<Token>, n: nat, f: Flags)
    requires ts != [] && 0 < n
    ensures OneCall(ts, n, f) <==> !Resets(ts, 0, f) && OneCall(ts[1..], n - 1, f)
  {
    assert forall a: nat :: Resets(ts, a + 1, f) <==> Resets(ts[1..], a, f);
    if !Resets(ts, 0, f) && OneCall(ts[1..], n - 1, f) {
      forall a: nat | a < n ensures !Resets(ts, a, f) {
        if a > 0 { assert Resets(ts, a - 1 + 1, f) <==> Resets(ts[1..], a - 1, f); }
      }
    }
  }

  /** A run of stars that does not end before a separator starts a call. */
  lemma {:induction false} RunResets(ts: seq<Token>, n: nat, f: Flags)
    requires 0 < n < |ts| && ts[0] == Star && ts[n] != Star && !SameCall(ts, f)
    ensures !OneCall(ts, n, f)
  {
    OneCallTail(ts, n, f);
    if ts[1] == Star {
      RunResets(ts[1..], n - 1, f);
    } else {
      assert Resets(ts, 0, f);
    }
  }

  /** Cutting a pattern behind a token other than a star does not change what follows its stars. */
  lemma {:induction false} CutAlike(ts: seq<Token>, n: nat, f: Flags)
    requires 0 < n <= |ts| && ts[n - 1] != Star
    ensures AfterStar(ts[..n], f) == AfterStar(ts, f) && (SameCall(ts[..n], f) <==> SameCall(ts, f))
  {
    assert ts[..n] != [] && ts[..n][0] == ts[0];
    if ts[0] == Star {
      assert ts[..n][1..] == ts[1..][..n - 1];
      CutAlike(ts[1..], n - 1, f);
    }
  }

  lemma {:induction false} WithoutTail(ts: seq<Token>, f: Flags)
    ensures AfterStar(ts, f.(leadingDir := false)) == AfterStar(ts, f).(leadingDir := false)
  {
    if ts == [] {
    } else if ts[0] == Star {
      WithoutTail(ts[1..], f);
    }
  }

  /** A token other than a star at either end takes a character each. */
  lemma {:induction false} AtLeast(ts: seq<Token>, s: string, i: nat, f: Flags)
    requires i <= |s| && ts != [] && ts[|ts| - 1] != Star && Whole(ts, s, i, f)
    ensures |s| >= i + if |ts| > 1 && ts[0] != Star then 2 else 1
    decreases |ts|
  {
    var r, g := ts[1..], f.(leadingDir := false);
    if |ts| == 1 {
    } else if ts[0] == Star {
      var j: nat :| Spans(s, i, j, g) && Matches(r, s, j, AfterStar(r, g));
      WithoutTail(r, f);
      AtLeast(r, s, j, AfterStar(r, f));
    } else {
      AtLeast(r, s, i + 1, f);
    }
  }

  /** Whether a place is allowed can be told behind a first star. */
  lemma AllowedBehind(ts: seq<Token>, n: nat, s: string, b: nat, i: nat, j: nat, f: Flags)
    requires b <= i <= j <= |s| && 2 <= n < |ts| && ts[0] == Star && ts[n - 1] != Star
    requires Whole(ts[1..][..n - 1], s, j, AfterStar(ts[1..], f))
    ensures var r := ts[1..];
      Allowed(ts, n, s, b, i, f) <==> Allowed(r, n - 1, s, if SameCall(r, f) then b else j, j, AfterStar(r, f))
  {
    var r, g := ts[1..], AfterStar(ts[1..], f);
    AfterStarFlags(r, f);
    assert forall a: int :: Resets(r, a, g) <==> Resets(r, a, f);
    assert OneCall(r, n - 1, g) <==> OneCall(r, n - 1, f);
    assert Resets(ts, n - 2, f) <==> (n == 2 && Resets(ts, 0, f)) || Resets(r, n - 3, f);
    OneCallTail(ts, n, f);
    AtLeast(r[..n - 1], s, j, g);
    if Resets(ts, 0, f) {
      if n == 2 {
        assert r[..1] == [r[0]] && [r[0]][1..] == [];
        assert Matches([r[0]], s, j, g.(leadingDir := false));
        assert |s| == j + 1 && OneCall(r, 1, f);
      }
    } else if !SameCall(r, f) {
      RunResets(r, n - 2, f);
    }
  }

  /** The first token of a whole match. */
  lemma WholeStar(ts: seq<Token>, n: nat, s: string, i: nat, j: nat, f: Flags)
    requires i <= |s| && 2 <= n <= |ts| && ts[0] == Star && ts[n - 1] != Star && Spans(s, i, j, f)
    ensures Matches(ts[..n][1..], s, j, AfterStar(ts[..n][1..], f.(leadingDir := false)))
      <==> Whole(ts[1..][..n - 1], s, j, AfterStar(ts[1..], f))
  {
    var r := ts[1..];
    assert ts[..n][1..] == r[..n - 1];
    WithoutTail(r[..n - 1], f);
    CutAlike(r, n - 1, f);
  }

  lemma PrefixStarTo(ts: seq<Token>, s: string, b: nat, i: nat, j: nat, f: Flags)
    requires b <= i <= |s| && ts != [] && ts[0] == Star && !GuardedPeriod(s, i, f) && Spans(s, i, j, f)
    requires var r := ts[1..];
      TriedAt(r, s, j) && IsPrefix(r, s, if SameCall(r, f) then b else j, j, AfterStar(r, f))
    ensures IsPrefix(ts, s, b, i, f)
  {
    var r, g := ts[1..], AfterStar(ts[1..], f);
    var b' := if SameCall(r, f) then b else j;
    var m: nat :| PrefixAt(r, m, s, b', j, g);
    var n := m + 1;
    assert r[..0] == [];
    assert m > 0;
    WholeStar(ts, n, s, i, j, f);
    AllowedBehind(ts, n, s, b, i, j, f);
    hide Allowed, AfterStar;
    assert Spans(s, i, j, f.(leadingDir := false));
    assert ts[..n] != [] && ts[..n][0] == Star;
    assert PrefixAt(ts, n, s, b, i, f);
  }

  lemma PrefixStarFrom(ts: seq<Token>, s: string, b: nat, i: nat, f: Flags) returns (j: nat)
    requires b <= i <= |s| && ts != [] && ts[0] == Star && IsPrefix(ts, s, b, i, f)
    ensures !GuardedPeriod(s, i, f) && Spans(s, i, j, f) && TriedAt(ts[1..], s, j)
    ensures var r := ts[1..]; IsPrefix(r, s, if SameCall(r, f) then b else j, j, AfterStar(r, f))
  {
    var r, g := ts[1..], AfterStar(ts[1..], f);
    var n: nat :| PrefixAt(ts, n, s, b, i, f);
    assert n >= 2;
    var us, h := ts[..n][1..], f.(leadingDir := false);
    j :| Spans(s, i, j, h) && Matches(us, s, j, AfterStar(us, h));
    WholeStar(ts, n, s, i, j, f);
    AtLeast(r[..n - 1], s, j, g);
    AllowedBehind(ts, n, s, b, i, j, f);
    assert PrefixAt(r, n - 1, s, if SameCall(r, f) then b else j, j, g);
  }

  lemma AllowedNext(ts: seq<Token>, n: nat, s: string, b: nat, i: nat, f: Flags)
    requires b <= i < |s| && ts != [] && ts[0] != Star && 0 < n < |ts|
    ensures Allowed(ts, n, s, b, i, f) <==> Allowed(ts[1..], n - 1, s, b, i + 1, f)
  {
    OneCallTail(ts, n, f);
    assert Resets(ts, n - 2, f) <==> Resets(ts[1..], n - 3, f);
  }

  lemma PrefixNext(ts: seq<Token>, n: nat, s: string, b: nat, i: nat, f: Flags)
    requires b <= i < |s| && ts != [] && ts[0] != Star && 0 < n < |ts|
    ensures PrefixAt(ts, n, s, b, i, f) <==>
      Accepts(ts[0], s[i], f) && !(ts[0] == Any && GuardedPeriod(s, i, f)) && PrefixAt(ts[1..], n - 1, s, b, i + 1, f)
  {
    AllowedNext(ts, n, s, b, i, f);
    AcceptsAlike(ts[0], s[i], f);
    hide Allowed, Accepts;
    assert ts[..n] != [] && ts[..n][0] == ts[0] && ts[..n][1..] == ts[1..][..n - 1];
  }

  lemma PrefixOne(ts: seq<Token>, s: string, b: nat, i: nat, f: Flags)
    requires b <= i < |s| && ts != [] && ts[0] != Star
    ensures IsPrefix(ts, s, b, i, f) <==>
      Accepts(ts[0], s[i], f) && !(ts[0] == Any && GuardedPeriod(s, i, f)) && IsPrefix(ts[1..], s, b, i + 1, f)
  {
    assert !PrefixAt(ts, 0, s, b, i, f) by { assert ts[..0] == []; }
    hide PrefixAt, Accepts;
    if IsPrefix(ts, s, b, i, f) {
      var n: nat :| PrefixAt(ts, n, s, b, i, f);
      PrefixWithin(ts, n, s, b, i, f);
      PrefixNext(ts, n, s, b, i, f);
    }
    if Accepts(ts[0], s[i], f) && !(ts[0] == Any && GuardedPeriod(s, i, f)) && IsPrefix(ts[1..], s, b, i + 1, f) {
      var m: nat :| PrefixAt(ts[1..], m, s, b, i + 1, f);
      PrefixWithin(ts[1..], m, s, b, i + 1, f);
      PrefixNext(ts, m + 1, s, b, i, f);
    }
  }

  lemma PrefixWithin(ts: seq<Token>, n: nat, s: string, b: nat, i: nat, f: Flags)
    requires b <= i <= |s| && PrefixAt(ts, n, s, b, i, f)
    ensures n < |ts|
  {
  }

  lemma AcceptsAlike(t: Token, c: char, f: Flags)
    ensures Accepts(t, c, f.(leadingDir := false)) <==> Accepts(t, c, f)
  {
    if t.Class? {
      assert forall item :: InItem(item, c, f.(leadingDir := false)) <==> InItem(item, c, f);
    }
  }

  /** Under FNM_PREFIX_DIRS exactly the strings that match, and those prefixes, are let through. */
  lemma {:induction false} PrefixIff(ts: seq<Token>, s: string, b: nat, i: nat, f: Flags)
    requires b <= i <= |s| && f.prefixDirs
    ensures Follows(ts, s, b, i, f) <==> Matches(ts, s, i, f) || IsPrefix(ts, s, b, i, f)
    decreases |ts|
  {
    if ts == [] {
    } else if ts[0] == Star {
      var r, g := ts[1..], AfterStar(ts[1..], f);
      AfterStarFlags(r, f);
      forall j: nat | Spans(s, i, j, f)
        ensures var b' := if SameCall(r, f) then b else j;
          Follows(r, s, b', j, g) <==> Matches(r, s, j, g) || IsPrefix(r, s, b', j, g)
      {
        PrefixIff(r, s, if SameCall(r, f) then b else j, j, g);
      }
      hide IsPrefix, AfterStar;
      if Follows(ts, s, b, i, f) {
        var j: nat :| Spans(s, i, j, f) && Resumes(r, s, b, j, f);
        if !Matches(r, s, j, g) { PrefixStarTo(ts, s, b, i, j, f); }
      }
      if Matches(ts, s, i, f) {
        var j: nat :| Spans(s, i, j, f) && Matches(r, s, j, g);
        if !TriedAt(r, s, j) { NeedsCharacter(r, s, g); }
        assert Resumes(r, s, b, j, f);
      }
      if IsPrefix(ts, s, b, i, f) {
        var j := PrefixStarFrom(ts, s, b, i, f);
        assert Resumes(r, s, b, j, f);
      }
    } else if i < |s| {
      PrefixIff(ts[1..], s, b, i + 1, f);
      PrefixOne(ts, s, b, i, f);
    } else {
      PrefixHere(ts, s, b, f);
    }
  }

  lemma PrefixHere(ts: seq<Token>, s: string, b: nat, f: Flags)
    requires b <= |s| && ts != [] && ts[0] != Star && f.prefixDirs
    ensures IsPrefix(ts, s, b, |s|, f) <==> Cut(ts[0], s, b, |s|, f)
  {
    assert ts[..0] == [];
    if Cut(ts[0], s, b, |s|, f) {
      assert PrefixAt(ts, 0, s, b, |s|, f);
    }
    if IsPrefix(ts, s, b, |s|, f) {
      var n: nat :| PrefixAt(ts, n, s, b, |s|, f);
      assert n > 0 ==> ts[..n] != [] && ts[..n][0] == ts[0];
    }
  }

  /** The period rule is lost behind a star that is handled by recursion: here '?' matches the
      period that starts a path component. */
  lemma PeriodRuleDropped()
    ensures var f := Flags(false, true, true, false, false, false);
      && GuardedPeriod("a/.b", 2, f) && Matches(Tokens("*a/?b", 0, f), "a/.b", 0, f)
      && !Strict(Tokens("*a/?b", 0, f), "a/.b", 0, f)
  {
    var f, s := Flags(false, true, true, false, false, false), "a/.b";
    var ts := [Lit('a'), Sep, Any, Lit('b')];
    PatternTokens(f);
    hide Tokens;
    RestMatches(NoPeriod(f));
    assert ([Star] + ts)[1..] == ts && AfterStar(ts, f) == NoPeriod(f);
    assert Spans(s, 0, 0, f);
    assert ([Star] + ts)[..2] == [Star, Lit('a')];
    assert Slashes(s[0..1]) == 0 == SlashTokens([Star, Lit('a')]);
    hide Matches, Strict;
    Rigid([Star] + ts, 2, s, 0, 1, f);
  }

  lemma PatternTokens(f: Flags)
    ensures Tokens("*a/?b", 0, f) == [Star] + [Lit('a'), Sep, Any, Lit('b')]
  {
    assert Tokens("*a/?b", 3, f) == [Any, Lit('b')];
  }

  lemma RestMatches(f: Flags)
    requires f.pathname && !f.period
    ensures Matches([Lit('a'), Sep, Any, Lit('b')], "a/.b", 0, f)
  {
    var ts, s := [Lit('a'), Sep, Any, Lit('b')], "a/.b";
    assert ts[1..] == [Sep, Any, Lit('b')] && ts[1..][1..] == [Any, Lit('b')];
    assert [Any, Lit('b')][1..] == [Lit('b')] && [Lit('b')][1..] == [];
    assert Matches([Lit('b')], s, 3, f);
    assert Matches([Any, Lit('b')], s, 2, f);
    assert Matches(ts[1..], s, 1, f);
  }

  /** fnmatch on whole strings: without FNM_PERIOD and FNM_PREFIX_DIRS it returns 0 exactly on
      the strings in the language of the pattern. With FNM_PERIOD it returns 0 exactly on those that
      match with the rule kept throughout, for every pattern that does not lose it. */
  method Match(pattern: CString, str: CString, f: Flags) returns (r: bool)
    ensures !f.period && !f.prefixDirs ==> (r <==> InLanguage(Tokens(pattern, 0, f), str, f))
    ensures !f.prefixDirs ==> (r <==> Matches(Tokens(pattern, 0, f), str, 0, f))
    ensures var ts := Tokens(pattern, 0, f);
      f.period && !f.prefixDirs && !(f.pathname && Loses(ts) && Possible(ts, f)) ==> (r <==> Strict(ts, str, 0, f))
    ensures f.prefixDirs ==>
      (r <==> Matches(Tokens(pattern, 0, f), str, 0, f) || IsPrefix(Tokens(pattern, 0, f), str, 0, 0, f))
  {
    r := Fnmatch(pattern, 0, str, 0, f);
    ghost var ts := Tokens(pattern, 0, f);
    if f.prefixDirs {
      PrefixIff(ts, str, 0, 0, f);
    } else {
      FollowsPlain(ts, str, 0, 0, f);
    }
    if !f.period {
      MatchesIsLanguage(ts, str, 0, f);
      assert str[0..] == str;
    } else {
      PeriodRuleIff(ts, f);
    }
  }
}
