/** The resumable option scanner of src/getopt.c.

    A run is a series of calls that share the scanner's state: the index of the next argument,
    the unread rest of a cluster of short options, and the bounds of a block of skipped
    non-options. Parse is the specification: one left-to-right pass over the original vector
    that never moves anything. */
module Getopt {
  import opened Options
  import opened Permute

  datatype HasArg = NoArgument | RequiredArgument | OptionalArgument

  /** A long option; hasFlag says that its flag pointer is not NULL. */
  datatype LongOption = LongOption(name: string, hasArg: HasArg, hasFlag: bool, val: int)

  /** The arguments that every call of one run passes unchanged. */
  datatype Config = Config(options: string, long: Option<seq<LongOption>>, longOnly: bool, posixlyCorrect: bool)
  {
    /** The option letters, after the mode character. */
    function Letters(): string {
      if options != "" && (options[0] == '+' || options[0] == '-') then options[1..] else options
    }

    /** As the source has it: permutation is off unless POSIXLY_CORRECT is set. */
    predicate Permuting() { posixlyCorrect && !(options != "" && options[0] == '+') }

    predicate AllArgs() { Permuting() && options != "" && options[0] == '-' }

    function BadArg(): int {
      if Letters() != "" && Letters()[0] == ':' then ':' as int else BADCH
    }

    /** No long option uses the scanner's own "no match" code as its value. */
    predicate WellFormed() {
      long.Some? ==> forall o :: o in long.value && !o.hasFlag ==> o.val != -1
    }
  }

  const BADCH: int := '?' as int
  const INORDER: int := 1
  const DONE: int := -1

  /** What a call that found something reports: its return value, optarg, the value stored in
      optopt if any, and the index stored through the idx pointer if any. */
  datatype Event = Event(code: int, arg: Option<string>, optopt: Option<int>, index: Option<nat>)

  // ----- which long option a name selects -----

  datatype LongMatch = NoMatch | Ambiguous | Match(index: nat)

  predicate Exact(o: LongOption, name: string) { o.name == name }

  /** An abbreviation; single characters that are also short options do not abbreviate. */
  predicate Partial(o: LongOption, name: string, shortToo: bool) {
    o.name != name && name <= o.name && !(shortToo && |name| == 1)
  }

  /** The first exact match, or the number of long options. */
  function FirstExact(long: seq<LongOption>, name: string, from: nat): (e: nat)
    requires from <= |long|
    ensures from <= e <= |long|
    ensures forall k :: from <= k < e ==> !Exact(long[k], name)
    ensures e < |long| ==> Exact(long[e], name)
    decreases |long| - from
  {
    if from == |long| || Exact(long[from], name) then from else FirstExact(long, name, from + 1)
  }

  /** The indices below hi of the options that name abbreviates. */
  function Partials(long: seq<LongOption>, name: string, shortToo: bool, hi: nat): (ps: seq<nat>)
    requires hi <= |long|
    ensures forall i :: 0 <= i < |ps| ==> ps[i] < hi && Partial(long[ps[i]], name, shortToo)
  {
    if hi == 0 then []
    else
      var ps := Partials(long, name, shortToo, hi - 1);
      if Partial(long[hi - 1], name, shortToo) then ps + [hi - 1] else ps
  }

  /** Two abbreviations ahead of the exact match make a name ambiguous; otherwise the exact
      match wins, and failing that a single abbreviation. */
  function SelectLong(long: seq<LongOption>, name: string, shortToo: bool): (m: LongMatch)
    ensures m.Match? ==> m.index < |long| && name <= long[m.index].name
  {
    var e := FirstExact(long, name, 0);
    var ps := Partials(long, name, shortToo, e);
    if |ps| >= 2 then Ambiguous
    else if e < |long| then Match(e)
    else if |ps| == 1 then Match(ps[0])
    else NoMatch
  }

  lemma {:induction false} PartialsGrow(long: seq<LongOption>, name: string, shortToo: bool, lo: nat, hi: nat)
    requires lo <= hi <= |long|
    ensures Partials(long, name, shortToo, lo) <= Partials(long, name, shortToo, hi)
    decreases hi
  {
    if lo == hi {
    } else {
      PartialsGrow(long, name, shortToo, lo, hi - 1);
    }
  }

  /** What one more option changes. */
  lemma MatchNext(long: seq<LongOption>, name: string, shortToo: bool, i: nat)
    requires i < |long|
    ensures var e := FirstExact(long, name, i);
      && Partials(long, name, shortToo, i) <= Partials(long, name, shortToo, e)
      && if Exact(long[i], name) then e == i
         else
           && e == FirstExact(long, name, i + 1)
           && Partials(long, name, shortToo, i + 1) <= Partials(long, name, shortToo, e)
    ensures Partials(long, name, shortToo, i + 1) ==
      Partials(long, name, shortToo, i) + if Partial(long[i], name, shortToo) then [i] else []
  {
    var e := FirstExact(long, name, i);
    PartialsGrow(long, name, shortToo, i, e);
    if e > i { PartialsGrow(long, name, shortToo, i + 1, e); }
  }

  /** The matching loop of parse_long_options. */
  method FindLong(long: seq<LongOption>, name: string, shortToo: bool) returns (m: LongMatch)
    ensures m == SelectLong(long, name, shortToo)
  {
    m := NoMatch;
    for i := 0 to |long|
      invariant FirstExact(long, name, 0) == FirstExact(long, name, i)
      invariant var ps := Partials(long, name, shortToo, i);
        |ps| <= 1 && m == if ps == [] then NoMatch else Match(ps[0])
    {
      MatchNext(long, name, shortToo, i);
      hide Partials, FirstExact;
      if !(name <= long[i].name) {
        continue;
      }
      if |long[i].name| == |name| {
        return Match(i);
      }
      if shortToo && |name| == 1 {
        continue;
      }
      if m == NoMatch {
        m := Match(i);
      } else {
        return Ambiguous;
      }
    }
  }

  // ----- one option -----

  /** The first index of c in s, or |s|. */
  function IndexOf(s: string, c: char): (k: nat)
    ensures k <= |s| && c !in s[..k] && (k < |s| ==> s[k] == c)
  {
    if s == "" || s[0] == c then 0
    else
      var k := IndexOf(s[1..], c);
      assert s[..k + 1] == [s[0]] + s[1..][..k];
      k + 1
  }

  lemma IndexOfAbsent(s: string, c: char)
    requires c !in s
    ensures IndexOf(s, c) == |s|
  {
  }

  function At(s: string, k: nat): char { if k < |s| then s[k] else '\0' }

  /** Where an option leaves the scanner: the next argument, and the unread rest of a cluster.
      Stuck is the exit for a '-' inside a cluster that is not an option letter: it reports the
      end of the options without moving on. Misread says that a long option was found whose value
      is the scanner's own code for no match or for the end; what happens then is not modelled. */
  datatype Step = Step(event: Event, next: nat, place: string) | Stuck | Misread

  function Found(e: Event, next: nat): Step { if e.code == DONE then Misread else Step(e, next, "") }

  /** parse_long_options after the matching loop: place is the text of the option, at index i. */
  function LongStep(cfg: Config, s: seq<string>, i: nat, place: string, m: LongMatch): (t: Step)
    requires cfg.long.Some? && i < |s|
    requires m.Match? ==> m.index < |cfg.long.value|
    ensures !t.Stuck? && (cfg.WellFormed() ==> !t.Misread?)
    ensures t.Step? ==> i < t.next <= |s| && t.place == "" && t.event.code != DONE
  {
    assert m.Match? ==> cfg.long.value[m.index] in cfg.long.value;
    var eq := IndexOf(place, '=');
    if m.NoMatch? || m.Ambiguous? then
      Step(Event(BADCH, None, Some(0), None), i + 1, "")
    else
      var o := cfg.long.value[m.index];
      var bad := Event(cfg.BadArg(), None, Some(if o.hasFlag then 0 else o.val), None);
      var found := Event(if o.hasFlag then 0 else o.val, None, None, Some(m.index));
      if eq < |place| then
        if o.hasArg == NoArgument then Step(bad, i + 1, "")
        else Found(found.(arg := Some(place[eq + 1..])), i + 1)
      else if o.hasArg == RequiredArgument then
        if i + 1 < |s| then Found(found.(arg := Some(s[i + 1])), i + 2) else Step(bad, i + 1, "")
      else
        Found(found, i + 1)
  }

  function LongName(place: string): string { place[..IndexOf(place, '=')] }

  /** The long option that the text at place selects. */
  function Selected(cfg: Config, place: string, shortToo: bool): (m: LongMatch)
    requires cfg.long.Some?
    ensures m.Match? ==> m.index < |cfg.long.value|
  {
    SelectLong(cfg.long.value, LongName(place), shortToo)
  }

  /** One short option: place is the unread part of argument i, with the letter first. */
  function ShortStep(cfg: Config, s: seq<string>, i: nat, place: string): (t: Step)
    requires i < |s| && place != ""
    ensures t.Step? ==> i <= t.next <= |s| && if t.next == i then t.place == place[1..] != "" else t.place == ""
    ensures (t.Step? ==> t.event.code != DONE) && (cfg.WellFormed() ==> !t.Misread?)
  {
    var c, rest, letters := place[0], place[1..], cfg.Letters();
    var oli := IndexOf(letters, c);
    var next := if rest == "" then i + 1 else i;
    if c == ':' || (c == '-' && rest != "") || oli == |letters| then
      if c == '-' && rest == "" then Stuck
      else Step(Event(BADCH, None, Some(c as int), None), next, rest)
    else if cfg.long.Some? && c == 'W' && At(letters, oli + 1) == ';' then
      if rest != "" then
        LongStep(cfg, s, i, s[i], Selected(cfg, s[i], false))
      else if i + 1 >= |s| then
        Step(Event(cfg.BadArg(), None, Some(c as int), None), i + 1, "")
      else
        LongStep(cfg, s, i + 1, s[i + 1], Selected(cfg, s[i + 1], false))
    else if At(letters, oli + 1) != ':' then
      Step(Event(c as int, None, None, None), next, rest)
    else if rest != "" then
      Step(Event(c as int, Some(rest), None, None), i + 1, "")
    else if At(letters, oli + 2) == ':' then
      Step(Event(c as int, None, None, None), i + 1, "")
    else if i + 1 >= |s| then
      Step(Event(cfg.BadArg(), None, Some(c as int), None), i + 1, "")
    else
      Step(Event(c as int, Some(s[i + 1]), None, None), i + 2, "")
  }

  /** The text is tried as a long option: after "--", or anywhere for getopt_long_only. A lone
      "-" is not, and neither is anything when there are no long options. */
  predicate TriesLong(cfg: Config, arg: string, place: string) {
    cfg.long.Some? && |place| < |arg| && place != "" && (place[0] == '-' || cfg.longOnly)
  }

  predicate AlsoShort(cfg: Config, place: string) {
    place != "" && place[0] != '-' && place[0] != ':' && place[0] in cfg.Letters()
  }

  function LongText(place: string): string { if place != "" && place[0] == '-' then place[1..] else place }

  /** One option, read from place within argument i of s. */
  function OptionStep(cfg: Config, s: seq<string>, i: nat, place: string): (t: Step)
    requires i < |s| && place != ""
    ensures t.Step? ==> i <= t.next <= |s| && if t.next == i then t.place == place[1..] != "" else t.place == ""
    ensures (t.Step? ==> t.event.code != DONE) && (cfg.WellFormed() ==> !t.Misread?)
  {
    if TriesLong(cfg, s[i], place) then
      var m := Selected(cfg, LongText(place), AlsoShort(cfg, place));
      if m.NoMatch? && AlsoShort(cfg, place) then ShortStep(cfg, s, i, place)
      else LongStep(cfg, s, i, LongText(place), m)
    else ShortStep(cfg, s, i, place)
  }

  /** An option is read from the arguments at i and after it only. */
  ghost predicate SameFrom(a: seq<string>, s: seq<string>, i: nat) {
    |a| == |s| && forall k :: i <= k < |s| ==> a[k] == s[k]
  }

  lemma LongStepLocal(cfg: Config, a: seq<string>, s: seq<string>, i: nat, place: string, m: LongMatch)
    requires SameFrom(a, s, i) && i < |s|
    requires cfg.long.Some? && (m.Match? ==> m.index < |cfg.long.value|)
    ensures LongStep(cfg, a, i, place, m) == LongStep(cfg, s, i, place, m)
  {}

  lemma ShortStepLocal(cfg: Config, a: seq<string>, s: seq<string>, i: nat, place: string)
    requires SameFrom(a, s, i) && i < |s| && place != ""
    ensures ShortStep(cfg, a, i, place) == ShortStep(cfg, s, i, place)
  {
    if cfg.long.Some? {
      LongStepLocal(cfg, a, s, i, s[i], Selected(cfg, s[i], false));
      if i + 1 < |s| { LongStepLocal(cfg, a, s, i + 1, s[i + 1], Selected(cfg, s[i + 1], false)); }
    }
    hide LongStep, Selected;
  }

  lemma OptionStepLocal(cfg: Config, a: seq<string>, s: seq<string>, i: nat, place: string)
    requires SameFrom(a, s, i) && i < |s| && place != ""
    ensures OptionStep(cfg, a, i, place) == OptionStep(cfg, s, i, place)
  {
    ShortStepLocal(cfg, a, s, i, place);
    if cfg.long.Some? {
      LongStepLocal(cfg, a, s, i, LongText(place), Selected(cfg, LongText(place), AlsoShort(cfg, place)));
    }
    hide LongStep, Selected, ShortStep, AlsoShort, LongText;
  }

  // ----- the specification of a whole run -----

  predicate IsNonOption(cfg: Config, arg: string) {
    arg == "" || arg[0] != '-' || (arg == "-" && '-' !in cfg.Letters())
  }

  /** The part of an option argument that is scanned: all but its dash, except for a lone dash. */
  function Scanned(arg: string): string { if |arg| > 1 then arg[1..] else arg }

  datatype End = AtEnd | AtTerminator | AtNonOption | AtStuck | AtMisread

  /** What a run will report and how it splits the arguments it reads: everything consumed as
      options (with their arguments, and "--"), everything skipped, and where it stops. */
  datatype Run = Run(events: seq<Event>, opts: seq<string>, nonopts: seq<string>, stop: nat, end: End)
  {
    ghost function Before(event: seq<Event>, opt: seq<string>, nonopt: seq<string>): Run {
      Run(event + events, opt + opts, nonopt + nonopts, stop, end)
    }
  }

  ghost function Parse(cfg: Config, s: seq<string>, i: nat, place: string): (r: Run)
    requires place != "" ==> i < |s|
    ensures i <= r.stop && (i <= |s| ==> r.stop <= |s|)
    ensures !cfg.Permuting() || cfg.AllArgs() ==> r.nonopts == []
    decreases |s| - i, if place == "" then (if i < |s| then |s[i]| + 1 else 0) else |place|
  {
    if place == "" then
      if i >= |s| then Run([], [], [], i, AtEnd)
      else if IsNonOption(cfg, s[i]) then
        if cfg.AllArgs() then
          Parse(cfg, s, i + 1, "").Before([Event(INORDER, Some(s[i]), None, None)], [s[i]], [])
        else if !cfg.Permuting() then Run([], [], [], i, AtNonOption)
        else Parse(cfg, s, i + 1, "").Before([], [], [s[i]])
      else if s[i] == "--" then Run([], [s[i]], [], i + 1, AtTerminator)
      else Parse(cfg, s, i, Scanned(s[i]))
    else
      var t := OptionStep(cfg, s, i, place);
      if t.Stuck? then Run([], [], [], i, AtStuck)
      else if t.Misread? then Run([], [], [], i, AtMisread)
      else Parse(cfg, s, t.next, t.place).Before([t.event], s[i..t.next], [])
  }

  /** Nothing is left but to misread an option. */
  predicate Misreads(r: Run) { r.events == [] && r.end == AtMisread }

  // ----- properties of the specification: nothing is lost, reordered or invented -----

  /** s interleaves a and b, keeping the order of each. */
  ghost predicate IsMerge<T>(s: seq<T>, a: seq<T>, b: seq<T>)
    decreases |s|
  {
    if s == [] then a == [] && b == []
    else
      || (a != [] && a[0] == s[0] && IsMerge(s[1..], a[1..], b))
      || (b != [] && b[0] == s[0] && IsMerge(s[1..], a, b[1..]))
  }

  lemma {:induction false} MergePrefix<T>(p: seq<T>, s: seq<T>, a: seq<T>, b: seq<T>)
    requires IsMerge(s, a, b)
    ensures IsMerge(p + s, p + a, b)
    decreases |p|
  {
    if p == [] {
      assert p + s == s && p + a == a;
    } else {
      MergePrefix(p[1..], s, a, b);
      assert (p + s)[1..] == p[1..] + s && (p + a)[1..] == p[1..] + a;
    }
  }

  lemma {:induction false} MergeCounts<T>(s: seq<T>, a: seq<T>, b: seq<T>)
    requires IsMerge(s, a, b)
    ensures |s| == |a| + |b| && multiset(s) == multiset(a) + multiset(b)
    decreases |s|
  {
    if s == [] {
    } else {
      assert s == [s[0]] + s[1..];
      if a != [] && a[0] == s[0] && IsMerge(s[1..], a[1..], b) {
        assert a == [a[0]] + a[1..];
        MergeCounts(s[1..], a[1..], b);
      } else {
        assert b == [b[0]] + b[1..];
        MergeCounts(s[1..], a, b[1..]);
      }
    }
  }

  lemma MergeSecond<T>(x: T, s: seq<T>, a: seq<T>, b: seq<T>)
    requires IsMerge(s, a, b)
    ensures IsMerge([x] + s, a, [x] + b)
  {
    assert ([x] + s)[1..] == s && ([x] + b)[1..] == b;
  }

  lemma ParseNonOption(cfg: Config, s: seq<string>, i: nat)
    requires i < |s| && IsNonOption(cfg, s[i]) && cfg.Permuting()
    ensures var r, rest := Parse(cfg, s, i, ""), Parse(cfg, s, i + 1, "");
      && i + 1 <= r.stop == rest.stop <= |s|
      && r.opts == (if cfg.AllArgs() then [s[i]] + rest.opts else rest.opts)
      && r.nonopts == if cfg.AllArgs() then rest.nonopts else [s[i]] + rest.nonopts
  {
    hide OptionStep;
  }

  lemma MergeNonOption(cfg: Config, s: seq<string>, i: nat)
    requires i < |s| && IsNonOption(cfg, s[i]) && cfg.Permuting()
    requires var rest := Parse(cfg, s, i + 1, ""); IsMerge(s[i + 1..rest.stop], rest.opts, rest.nonopts)
    ensures var r := Parse(cfg, s, i, ""); IsMerge(s[i..r.stop], r.opts, r.nonopts)
  {
    hide Parse, IsMerge;
    var r, rest := Parse(cfg, s, i, ""), Parse(cfg, s, i + 1, "");
    ParseNonOption(cfg, s, i);
    assert s[i..r.stop] == [s[i]] + s[i + 1..r.stop];
    if cfg.AllArgs() {
      MergePrefix([s[i]], s[i + 1..r.stop], rest.opts, rest.nonopts);
    } else {
      MergeSecond(s[i], s[i + 1..r.stop], rest.opts, rest.nonopts);
    }
  }

  /** The arguments a run reads are an interleaving of those it consumes as options and those
      it skips, and it skips only non-options. */
  lemma {:induction false} ParseMerges(cfg: Config, s: seq<string>, i: nat, place: string)
    requires i <= |s| && (place != "" ==> i < |s|)
    ensures var r := Parse(cfg, s, i, place);
      && IsMerge(s[i..r.stop], r.opts, r.nonopts)
      && forall x :: x in r.nonopts ==> IsNonOption(cfg, x)
    decreases |s| - i, if place == "" then (if i < |s| then |s[i]| + 1 else 0) else |place|
  {
    hide OptionStep, IsMerge;
    var r := Parse(cfg, s, i, place);
    MergeNothing<string>();
    if place != "" {
      var t := OptionStep(cfg, s, i, place);
      if t.Step? {
        ParseMerges(cfg, s, t.next, t.place);
        var rest := Parse(cfg, s, t.next, t.place);
        assert r == rest.Before([t.event], s[i..t.next], []) && i <= t.next <= r.stop <= |s|;
        hide Parse;
        MergePrefix(s[i..t.next], s[t.next..r.stop], rest.opts, rest.nonopts);
        assert s[i..r.stop] == s[i..t.next] + s[t.next..r.stop];
        assert r.nonopts == rest.nonopts;
      } else {
        assert s[i..r.stop] == [];
      }
    } else if i >= |s| {
      assert s[i..r.stop] == [];
    } else if IsNonOption(cfg, s[i]) {
      if cfg.Permuting() {
        ParseMerges(cfg, s, i + 1, "");
        MergeNonOption(cfg, s, i);
      } else {
        assert s[i..r.stop] == [];
      }
    } else if s[i] == "--" {
      assert s[i..r.stop] == [s[i]] + [] && r.opts == [s[i]] + [];
      MergePrefix([s[i]], [], [], []);
    } else {
      ParseMerges(cfg, s, i, Scanned(s[i]));
    }
  }

  lemma MergeNothing<T>()
    ensures IsMerge<T>([], [], [])
  {
  }

  // ----- the arrangement of the vector in mid-run -----

  /** a is s with the arguments read so far, from start to i, arranged as the scanner keeps
      them: options found before the skipped block, the skipped block, options found after it. */
  ghost predicate Arranged(a: seq<string>, s: seq<string>, start: nat, opts: seq<string>, nonopts: seq<string>,
                           i: nat, ns: int, ne: int)
  {
    if i > |s| then
      a == s && start == i && opts == [] && nonopts == [] && ns == ne == -1
    else
      && start <= i == start + |opts| + |nonopts|
      && (if ns == -1 then
            ne == -1 && nonopts == [] && a == s[..start] + opts + s[i..]
          else if ne == -1 then
            nonopts != [] && ns == start + |opts| && a == s[..start] + opts + nonopts + s[i..]
          else
            && nonopts != [] && start <= ns && ne == ns + |nonopts| <= i
            && a == s[..start] + opts[..ns - start] + nonopts + opts[ns - start..] + s[i..])
  }

  lemma ArrangedBasics(a: seq<string>, s: seq<string>, start: nat, opts: seq<string>, nonopts: seq<string>,
                       i: nat, ns: int, ne: int)
    requires Arranged(a, s, start, opts, nonopts, i, ns, ne)
    ensures |a| == |s| && (i < |s| ==> a[i] == s[i]) && i == start + |opts| + |nonopts|
    ensures (ns == -1 <==> nonopts == []) && (ns == -1 ==> ne == -1)
    ensures ns >= -1 && ne >= -1 && (ne != -1 ==> ns < ne <= i <= |s|)
    ensures ns != -1 && ne == -1 ==> ns == start + |opts|
    ensures ne == -1 ==> a == Layout(s, start, opts, nonopts, i)
  {
    if ns == -1 && i <= |s| {
      assert opts + nonopts == opts;
    }
  }

  lemma ArrangedStart(s: seq<string>)
    ensures Arranged(s, s, 1, [], [], 1, -1, -1)
  {
    if |s| >= 1 {
      assert s == s[..1] + [] + s[1..];
    }
  }

  lemma ArrangedTail(a: seq<string>, s: seq<string>, start: nat, opts: seq<string>, nonopts: seq<string>,
                     i: nat, ns: int, ne: int)
    requires Arranged(a, s, start, opts, nonopts, i, ns, ne) && i <= |s|
    ensures SameFrom(a, s, i)
  {}

  lemma ExchangeBlocks<T>(p: seq<T>, x: seq<T>, y: seq<T>, q: seq<T>)
    ensures Exchanged(p + x + y + q, |p|, |p + x|, |p + x + y|) == p + y + x + q
  {
    var s := p + x + y + q;
    assert s[..|p|] == p;
    assert s[|p|..|p + x|] == x;
    assert s[|p + x|..|p + x + y|] == y;
    assert s[|p + x + y|..] == q;
  }

  /** permute_args moves the skipped block behind the options found after it. */
  lemma ArrangedPermute(a: seq<string>, s: seq<string>, start: nat, opts: seq<string>, nonopts: seq<string>,
                        i: nat, ns: nat, ne: nat)
    requires Arranged(a, s, start, opts, nonopts, i, ns, ne)
    ensures ns < ne <= i <= |a|
    ensures Arranged(Exchanged(a, ns, ne, i), s, start, opts, nonopts, i, i - (ne - ns), -1)
  {
    var k := ns - start;
    var p, y := s[..start] + opts[..k], opts[k..];
    ExchangeBlocks(p, nonopts, y, s[i..]);
    assert p + y == s[..start] + opts;
  }

  /** A skipped argument extends the block of non-options. */
  lemma ArrangedSkip(a: seq<string>, s: seq<string>, start: nat, opts: seq<string>, nonopts: seq<string>,
                     i: nat, ns: int)
    requires Arranged(a, s, start, opts, nonopts, i, ns, -1) && i < |s|
    ensures a[i] == s[i]
    ensures Arranged(a, s, start, opts, nonopts + [s[i]], i + 1, if ns == -1 then i else ns, -1)
  {
    assert s[i..] == [s[i]] + s[i + 1..];
  }

  /** An option ends the block of non-options. */
  lemma ArrangedMark(a: seq<string>, s: seq<string>, start: nat, opts: seq<string>, nonopts: seq<string>,
                     i: nat, ns: int)
    requires Arranged(a, s, start, opts, nonopts, i, ns, -1) && i <= |s| && ns != -1
    ensures Arranged(a, s, start, opts, nonopts, i, ns, i)
  {
    assert opts[..|opts|] == opts && opts[|opts|..] == [];
    assert s[..start] + opts + nonopts + [] + s[i..] == s[..start] + opts + nonopts + s[i..];
  }

  /** Consumed arguments follow the options found after the skipped block. */
  lemma ArrangedConsume(a: seq<string>, s: seq<string>, start: nat, opts: seq<string>, nonopts: seq<string>,
                        i: nat, ns: int, ne: int, next: nat)
    requires Arranged(a, s, start, opts, nonopts, i, ns, ne) && i <= next <= |s|
    requires ns == -1 || ne != -1
    ensures Arranged(a, s, start, opts + s[i..next], nonopts, next, ns, ne)
  {
    assert s[i..] == s[i..next] + s[next..];
    if ns != -1 {
      var k := ns - start;
      assert (opts + s[i..next])[..k] == opts[..k];
      assert (opts + s[i..next])[k..] == opts[k..] + s[i..next];
    }
  }

  /** The same for a single argument. */
  lemma ArrangedOne(a: seq<string>, s: seq<string>, start: nat, opts: seq<string>, nonopts: seq<string>,
                    i: nat, ns: int, ne: int)
    requires Arranged(a, s, start, opts, nonopts, i, ns, ne) && i < |s| && (ns == -1 || ne != -1 || nonopts == [])
    ensures ne != -1 ==> ne < i + 1
    ensures Arranged(a, s, start, opts + [s[i]], nonopts, i + 1, ns, ne)
  {
    ArrangedBasics(a, s, start, opts, nonopts, i, ns, ne);
    ArrangedConsume(a, s, start, opts, nonopts, i, ns, ne, i + 1);
    assert s[i..i + 1] == [s[i]];
  }

  /** How the prediction of a run develops as the argument at i is examined from its start. */
  lemma ParseArgument(cfg: Config, s: seq<string>, i: nat, o: seq<string>, n: seq<string>)
    ensures var now := Parse(cfg, s, i, "").Before([], o, n);
      if i >= |s| then now == Run([], o, n, i, AtEnd)
      else if IsNonOption(cfg, s[i]) then
        if cfg.AllArgs() then
          var event := [Event(INORDER, Some(s[i]), None, None)];
          now == Parse(cfg, s, i + 1, "").Before([], o + [s[i]], n).Before(event, [], [])
        else if !cfg.Permuting() then now == Run([], o, n, i, AtNonOption)
        else now == Parse(cfg, s, i + 1, "").Before([], o, n + [s[i]])
      else if s[i] == "--" then now == Run([], o + [s[i]], n, i + 1, AtTerminator)
      else now == Parse(cfg, s, i, Scanned(s[i])).Before([], o, n)
  {
    assert o + [] == o && n + [] == n;
    if i < |s| && IsNonOption(cfg, s[i]) {
      var r, event := Parse(cfg, s, i + 1, ""), [Event(INORDER, Some(s[i]), None, None)];
      BeforeBefore(r, [], o, n, event, [s[i]], []);
      BeforeBefore(r, event, [], [], [], o + [s[i]], n);
      BeforeBefore(r, [], o, n, [], [], [s[i]]);
      assert [] + (o + [s[i]]) == o + [s[i]] && [] + n == n && event + [] == event;
    }
  }

  /** The same for an argument that starts an option, or is "--". */
  lemma ParseStart(cfg: Config, s: seq<string>, i: nat, o: seq<string>, n: seq<string>)
    requires i < |s| && !IsNonOption(cfg, s[i])
    ensures Parse(cfg, s, i, "").Before([], o, n) ==
      if s[i] == "--" then Run([], o + ["--"], n, i + 1, AtTerminator)
      else Parse(cfg, s, i, Scanned(s[i])).Before([], o, n)
  {
    ParseArgument(cfg, s, i, o, n);
  }

  /** How the prediction develops as an option is read. */
  lemma ParseOption(cfg: Config, s: seq<string>, i: nat, place: string, o: seq<string>, n: seq<string>)
    requires i < |s| && place != ""
    ensures var now, t := Parse(cfg, s, i, place).Before([], o, n), OptionStep(cfg, s, i, place);
      if t.Stuck? then now == Run([], o, n, i, AtStuck)
      else if t.Misread? then now == Run([], o, n, i, AtMisread)
      else now == Parse(cfg, s, t.next, t.place).Before([], o + s[i..t.next], n).Before([t.event], [], [])
  {
    var t := OptionStep(cfg, s, i, place);
    assert o + [] == o && n + [] == n;
    if t.Step? {
      var r := Parse(cfg, s, t.next, t.place);
      BeforeBefore(r, [], o, n, [t.event], s[i..t.next], []);
      BeforeBefore(r, [t.event], [], [], [], o + s[i..t.next], n);
      assert [] + (o + s[i..t.next]) == o + s[i..t.next] && [] + n == n && [t.event] + [] == [t.event];
    }
  }

  /** The final arrangement: options first, then the skipped arguments, then what was not read. */
  ghost function Layout(s: seq<string>, start: nat, opts: seq<string>, nonopts: seq<string>, stop: nat): seq<string> {
    if start > |s| || stop > |s| then s else s[..start] + opts + nonopts + s[stop..]
  }

  // ----- the scanner -----

  ghost predicate IsSuffix(place: string, arg: string) {
    |place| <= |arg| && place == arg[|arg| - |place|..]
  }

  lemma ScannedSuffix(arg: string)
    requires arg != ""
    ensures IsSuffix(Scanned(arg), arg) && Scanned(arg) != ""
  {}

  lemma SuffixTail(place: string, arg: string)
    requires IsSuffix(place, arg) && place != ""
    ensures IsSuffix(place[1..], arg)
  {}

  /** The statics of getopt.c, together with the argument vector all calls of a run pass.
      The ghost fields record the vector as it was when the run started, where it started, and
      what has been read so far. Setting optind to 0 asks for a new run. */
  class Scanner {
    const argv: array<string>
    var optind: nat
    var optarg: Option<string>
    var optopt: int
    var place: string
    var nonoptStart: int
    var nonoptEnd: int
    ghost var orig: seq<string>
    ghost var start: nat
    ghost var opts: seq<string>
    ghost var nonopts: seq<string>

    constructor (argv: array<string>)
      ensures this.argv == argv && optind == 1
      ensures Orig() == argv[..] && Start() == 1
      ensures forall cfg: Config :: Valid(cfg) && Rest(cfg) == Parse(cfg, argv[..], 1, "")
    {
      this.argv := argv;
      optind, optarg, optopt, place, nonoptStart, nonoptEnd := 1, None, BADCH, "", -1, -1;
      orig, start, opts, nonopts := argv[..], 1, [], [];
      new;
      forall cfg: Config ensures Valid(cfg) && Rest(cfg) == Parse(cfg, argv[..], 1, "") {
        BeforeNothing(Parse(cfg, argv[..], 1, ""));
      }
    }

    /** What holds between the calls of a run. */
    ghost predicate InRun(cfg: Config)
      reads this, argv
    {
      && Arranged(argv[..], orig, start, opts, nonopts, optind, nonoptStart, nonoptEnd)
      && (!cfg.Permuting() || cfg.AllArgs() ==> nonopts == [])
      && (place == "" && nonoptEnd != -1 ==> nonoptEnd < optind)
      && (place != "" ==>
            optind < |orig| && IsSuffix(place, orig[optind]) && (nonopts == [] || nonoptEnd != -1))
    }

    ghost predicate Valid(cfg: Config)
      reads this, argv
    {
      optind == 0 || InRun(cfg)
    }

    ghost function Orig(): seq<string>
      reads this, argv
    {
      if optind == 0 then argv[..] else orig
    }

    ghost function Start(): nat
      reads this
    {
      if optind == 0 then 1 else start
    }

    /** The whole run, less the events already reported, as the specification predicts it. */
    ghost function Rest(cfg: Config): Run
      requires Valid(cfg)
      reads this, argv
    {
      if optind == 0 then Parse(cfg, argv[..], 1, "")
      else Parse(cfg, orig, optind, place).Before([], opts, nonopts)
    }

    /** The skipped block is moved up behind the options that were found after it. */
    method MoveBlock()
      requires Arranged(argv[..], orig, start, opts, nonopts, optind, nonoptStart, nonoptEnd)
      requires nonoptEnd != -1 && nonoptEnd < optind
      modifies argv, this`nonoptStart, this`nonoptEnd
      ensures Arranged(argv[..], orig, start, opts, nonopts, optind, nonoptStart, nonoptEnd)
      ensures nonoptStart != -1 && nonoptEnd == -1
    {
      ArrangedBasics(argv[..], orig, start, opts, nonopts, optind, nonoptStart, nonoptEnd);
      ArrangedPermute(argv[..], orig, start, opts, nonopts, optind, nonoptStart, nonoptEnd);
      hide Arranged;
      PermuteArgs(argv, nonoptStart, nonoptEnd, optind);
      nonoptStart := optind - (nonoptEnd - nonoptStart);
      nonoptEnd := -1;
    }

    /** Lines 325-334: a non-option joins the skipped block, moved up behind any options
        that were found after it. */
    method SkipNonOption(cfg: Config)
      requires InRun(cfg) && place == "" && 0 < optind < argv.Length
      requires cfg.Permuting() && !cfg.AllArgs()
      modifies this, argv
      ensures InRun(cfg) && place == "" && optind == old(optind) + 1
      ensures orig == old(orig) && start == old(start) && opts == old(opts)
      ensures nonopts == old(nonopts) + [orig[old(optind)]]
      ensures optarg == old(optarg) && optopt == old(optopt)
    {
      ArrangedBasics(argv[..], orig, start, opts, nonopts, optind, nonoptStart, nonoptEnd);
      hide Arranged;
      if nonoptEnd != -1 {
        MoveBlock();
      }
      ArrangedSkip(argv[..], orig, start, opts, nonopts, optind, nonoptStart);
      if nonoptStart == -1 {
        nonoptStart := optind;
      }
      nonopts := nonopts + [orig[optind]];
      optind := optind + 1;
    }

    /** optind++ over an argument that is consumed where it stands. */
    method Consume(ghost cfg: Config)
      requires InRun(cfg) && place == "" && 0 < optind < argv.Length && (nonopts == [] || nonoptEnd != -1)
      modifies this`optind, this`opts
      ensures InRun(cfg) && optind == old(optind) + 1
      ensures opts == old(opts) + [orig[old(optind)]]
    {
      ArrangedBasics(argv[..], orig, start, opts, nonopts, optind, nonoptStart, nonoptEnd);
      ArrangedOne(argv[..], orig, start, opts, nonopts, optind, nonoptStart, nonoptEnd);
      hide Arranged;
      opts := opts + [orig[optind]];
      optind := optind + 1;
    }

    /** Lines 338-339: an option ends the block of non-options. */
    method MarkEnd(ghost cfg: Config)
      requires InRun(cfg) && place == "" && 0 < optind < argv.Length
      modifies this`nonoptEnd
      ensures nonopts == [] || nonoptEnd != -1
      ensures Arranged(argv[..], orig, start, opts, nonopts, optind, nonoptStart, nonoptEnd)
    {
      ArrangedBasics(argv[..], orig, start, opts, nonopts, optind, nonoptStart, nonoptEnd);
      if nonoptStart != -1 && nonoptEnd == -1 {
        ArrangedMark(argv[..], orig, start, opts, nonopts, optind, nonoptStart);
        hide Arranged;
        nonoptEnd := optind;
      }
    }

    /** Lines 289-303 and 351-357: the skipped block goes last, and the next argument is its first. */
    method Finish()
      requires Arranged(argv[..], orig, start, opts, nonopts, optind, nonoptStart, nonoptEnd)
      requires place == "" && (nonoptEnd != -1 ==> nonoptEnd < optind)
      modifies this, argv
      ensures place == "" && nonoptStart == nonoptEnd == -1
      ensures optind == start + |opts|
      ensures argv[..] == Layout(orig, start, opts, nonopts, old(optind))
      ensures orig == old(orig) && start == old(start) && opts == old(opts) && nonopts == old(nonopts)
      ensures optarg == old(optarg) && optopt == old(optopt)
    {
      ArrangedBasics(argv[..], orig, start, opts, nonopts, optind, nonoptStart, nonoptEnd);
      hide Arranged;
      if nonoptEnd != -1 {
        ArrangedPermute(argv[..], orig, start, opts, nonopts, optind, nonoptStart, nonoptEnd);
        PermuteArgs(argv, nonoptStart, nonoptEnd, optind);
        ArrangedBasics(argv[..], orig, start, opts, nonopts, optind, optind - (nonoptEnd - nonoptStart), -1);
        optind := optind - (nonoptEnd - nonoptStart);
      } else if nonoptStart != -1 {
        optind := nonoptStart;
      }
      nonoptStart, nonoptEnd := -1, -1;
    }

    /** The state in which a run that was predicted to be r ends. */
    ghost predicate Finished(r: Run, s: seq<string>, from: nat)
      reads this, argv
    {
      && r.events == [] && r.end != AtMisread && place == "" && optarg == None
      && (r.end != AtStuck ==>
            && argv[..] == Layout(s, from, r.opts, r.nonopts, r.stop)
            && optind == from + |r.opts| && nonoptStart == nonoptEnd == -1)
      && (r.end == AtStuck ==>
            && Arranged(argv[..], s, from, r.opts, r.nonopts, r.stop, nonoptStart, nonoptEnd)
            && optind == r.stop && (r.nonopts == [] || nonoptEnd != -1))
    }

    /** Lines 344-357: "--" is consumed and ends the run. */
    method Terminate()
      requires place == "" && 0 < optind < argv.Length && optarg == None
      requires Arranged(argv[..], orig, start, opts, nonopts, optind, nonoptStart, nonoptEnd)
      requires nonopts == [] || nonoptEnd != -1
      requires |argv[..]| == |orig| && orig[optind] == "--"
      modifies this, argv
      ensures orig == old(orig) && start == old(start) && optopt == old(optopt)
      ensures Finished(Run([], old(opts) + ["--"], old(nonopts), old(optind) + 1, AtTerminator), orig, start)
    {
      hide Arranged, Layout;
      ArrangedOne(argv[..], orig, start, opts, nonopts, optind, nonoptStart, nonoptEnd);
      opts := opts + ["--"];
      optind := optind + 1;
      Finish();
    }

    /** An option is entered: place is its text. */
    method Enter(cfg: Config)
      requires Arranged(argv[..], orig, start, opts, nonopts, optind, nonoptStart, nonoptEnd)
      requires !cfg.Permuting() || cfg.AllArgs() ==> nonopts == []
      requires nonopts == [] || nonoptEnd != -1
      requires optind < argv.Length && optind < |orig| && argv[optind] == orig[optind] != ""
      modifies this`place
      ensures InRun(cfg) && place == Scanned(orig[optind]) != ""
    {
      ScannedSuffix(orig[optind]);
      hide Arranged, IsSuffix, Scanned;
      place := Scanned(argv[optind]);
    }

    /** Lines 338-358: an argument that starts an option, or is "--". */
    method StartOption(cfg: Config) returns (r: Scan)
      requires InRun(cfg) && place == "" && 0 < optind < argv.Length && optarg == None
      requires |argv[..]| == |orig| && argv[optind] == orig[optind] && !IsNonOption(cfg, orig[optind])
      modifies this, argv
      ensures orig == old(orig) && start == old(start) && optopt == old(optopt)
      ensures r == Over || r == AtOption
      ensures r == AtOption ==> InRun(cfg) && 0 < optind && place != "" && optarg == None && Rest(cfg) == old(Rest(cfg))
      ensures r == Over ==> Finished(old(Rest(cfg)), orig, start)
    {
      hide Arranged, Parse, Finished, IsSuffix, Scanned;
      ParseStart(cfg, orig, optind, opts, nonopts);
      assert !cfg.Permuting() || cfg.AllArgs() ==> nonopts == [];
      hide InRun;
      MarkEnd(cfg);
      if argv[optind] == "--" {
        Terminate();
        return Over;
      }
      Enter(cfg);
      return AtOption;
    }

    /** Lines 286-358: one argument, from its start. */
    method Examine(cfg: Config) returns (r: Scan)
      requires InRun(cfg) && place == "" && 0 < optind && optarg == None
      modifies this, argv
      ensures orig == old(orig) && start == old(start) && optopt == old(optopt)
      ensures r == Skipped ==>
        && InRun(cfg) && old(optind) < optind <= argv.Length && place == "" && optarg == None
        && Rest(cfg) == old(Rest(cfg))
      ensures r == AtOption ==> InRun(cfg) && 0 < optind && place != "" && optarg == None && Rest(cfg) == old(Rest(cfg))
      ensures r == InOrder ==>
        && InRun(cfg) && 0 < optind
        && old(Rest(cfg)) == Rest(cfg).Before([Event(INORDER, optarg, None, None)], [], [])
      ensures r == Over ==> Finished(old(Rest(cfg)), orig, start)
    {
      ArrangedBasics(argv[..], orig, start, opts, nonopts, optind, nonoptStart, nonoptEnd);
      hide Arranged;
      hide Parse;
      ParseArgument(cfg, orig, optind, opts, nonopts);
      if optind >= argv.Length {
        Finish();
        return Over;
      }
      assert argv[optind] == orig[optind];
      if IsNonOption(cfg, argv[optind]) {
        if cfg.AllArgs() {
          optarg := Some(argv[optind]);
          Consume(cfg);
          return InOrder;
        }
        if !cfg.Permuting() {
          return Over;
        }
        SkipNonOption(cfg);
        return Skipped;
      }
      r := StartOption(cfg);
    }

    /** Lines 285-359: skip non-options up to an option (place is then its text), a non-option
        to report in order, or the end of the run. */
    method NextArgument(cfg: Config) returns (r: Scan)
      requires InRun(cfg) && place == "" && 0 < optind && optarg == None
      modifies this, argv
      ensures orig == old(orig) && start == old(start) && optopt == old(optopt) && r != Skipped
      ensures r == AtOption ==> InRun(cfg) && 0 < optind && place != "" && optarg == None && Rest(cfg) == old(Rest(cfg))
      ensures r == InOrder ==>
        && InRun(cfg) && 0 < optind
        && old(Rest(cfg)) == Rest(cfg).Before([Event(INORDER, optarg, None, None)], [], [])
      ensures r == Over ==> Finished(old(Rest(cfg)), orig, start)
    {
      hide InRun, Finished;
      ghost var all := Rest(cfg);
      r := Examine(cfg);
      while r == Skipped
        invariant orig == old(orig) && start == old(start) && optopt == old(optopt)
        invariant r == Skipped ==>
          InRun(cfg) && 0 < optind <= argv.Length && place == "" && optarg == None && Rest(cfg) == all
        invariant r == AtOption ==> InRun(cfg) && 0 < optind && place != "" && optarg == None && Rest(cfg) == all
        invariant r == InOrder ==>
          InRun(cfg) && 0 < optind && all == Rest(cfg).Before([Event(INORDER, optarg, None, None)], [], [])
        invariant r == Over ==> Finished(all, orig, start)
        decreases if r == Skipped then argv.Length - optind + 1 else 0
      {
        r := Examine(cfg);
      }
    }

    /** Lines 367-417: the step the option at place takes. */
    method ChooseStep(cfg: Config) returns (t: Step)
      requires 0 < optind < argv.Length && place != ""
      ensures t == OptionStep(cfg, argv[..], optind, place)
    {
      if TriesLong(cfg, argv[optind], place) {
        var shortToo, text := AlsoShort(cfg, place), LongText(place);
        var m := FindLong(cfg.long.value, LongName(text), shortToo);
        if m.NoMatch? && shortToo {
          t := ShortStep(cfg, argv[..], optind, place);
        } else {
          t := LongStep(cfg, argv[..], optind, text, m);
        }
      } else {
        t := ShortStep(cfg, argv[..], optind, place);
      }
    }

    /** The assignments with which an option leaves the scanner. */
    method TakeStep(ghost cfg: Config, t: Step)
      requires InRun(cfg) && 0 < optind && place != "" && t.Step?
      requires optind <= t.next <= |orig|
      requires if t.next == optind then t.place == place[1..] != "" else t.place == ""
      modifies this
      ensures orig == old(orig) && start == old(start)
      ensures InRun(cfg) && 0 < optind && optind == t.next && place == t.place
      ensures opts == old(opts) + orig[old(optind)..t.next] && nonopts == old(nonopts)
      ensures optarg == t.event.arg && optopt == if t.event.optopt.Some? then t.event.optopt.value else old(optopt)
    {
      ArrangedConsume(argv[..], orig, start, opts, nonopts, optind, nonoptStart, nonoptEnd, t.next);
      ArrangedBasics(argv[..], orig, start, opts, nonopts, optind, nonoptStart, nonoptEnd);
      SuffixTail(place, orig[optind]);
      hide Arranged, IsSuffix;
      opts := opts + orig[optind..t.next];
      optind, place := t.next, t.place;
      optarg := t.event.arg;
      if t.event.optopt.Some? {
        optopt := t.event.optopt.value;
      }
    }

    /** Lines 361-440: read one option. */
    method ReadOption(cfg: Config) returns (code: int, index: Option<nat>, misread: bool)
      requires InRun(cfg) && 0 < optind && place != "" && optarg == None
      modifies this
      ensures orig == old(orig) && start == old(start)
      ensures misread ==> Misreads(old(Rest(cfg)))
      ensures !misread && code == DONE ==> index == None && Finished(old(Rest(cfg)), orig, start)
      ensures !misread && code != DONE ==>
        && InRun(cfg) && 0 < optind
        && exists e :: Reports(code, index, old(optopt), e) && old(Rest(cfg)) == Rest(cfg).Before([e], [], [])
    {
      ArrangedBasics(argv[..], orig, start, opts, nonopts, optind, nonoptStart, nonoptEnd);
      ArrangedTail(argv[..], orig, start, opts, nonopts, optind, nonoptStart, nonoptEnd);
      OptionStepLocal(cfg, argv[..], orig, optind, place);
      ParseOption(cfg, orig, optind, place, opts, nonopts);
      hide Parse, OptionStep, Arranged;
      var t := ChooseStep(cfg);
      if t.Misread? {
        return DONE, None, true;
      }
      if t.Stuck? {
        place := "";
        return DONE, None, false;
      }
      TakeStep(cfg, t);
      assert Reports(t.event.code, t.event.index, old(optopt), t.event);
      return t.event.code, t.event.index, false;
    }

    /** getopt_internal: one call reports the next predicted event, or, when there is none,
        returns -1 with the vector in its final arrangement; unless it misreads an option. */
    method Getopt(cfg: Config) returns (code: int, index: Option<nat>, misread: bool)
      requires Valid(cfg)
      modifies this, argv
      ensures misread <==> Misreads(old(Rest(cfg)))
      ensures misread || code == DONE <==> old(Rest(cfg)).events == []
      ensures !misread && code == DONE ==> index == None && Finished(old(Rest(cfg)), old(Orig()), old(Start()))
      ensures !misread && code != DONE ==>
        && Valid(cfg) && Orig() == old(Orig()) && Start() == old(Start())
        && Reports(code, index, old(optopt), old(Rest(cfg)).events[0])
        && old(Rest(cfg)) == Rest(cfg).Before([old(Rest(cfg)).events[0]], [], [])
    {
      BeginCall(cfg);
      ghost var all := Rest(cfg);
      hide InRun, Finished, Rest;
      if place == "" {
        var r := NextArgument(cfg);
        if r == Over {
          FinishedEvents(all);
          return DONE, None, false;
        }
        if r == InOrder {
          BeforeOne(Rest(cfg), Event(INORDER, optarg, None, None));
          return INORDER, None, false;
        }
      }
      code, index, misread := ReadOption(cfg);
      if misread {
      } else if code == DONE {
        FinishedEvents(all);
      } else {
        ghost var e :| Reports(code, index, old(optopt), e) && all == Rest(cfg).Before([e], [], []);
        BeforeOne(Rest(cfg), e);
      }
    }

    /** Lines 279-284: a request for a new run, and the reset of optarg. */
    method BeginCall(ghost cfg: Config)
      requires Valid(cfg)
      modifies this
      ensures InRun(cfg) && 0 < optind && optarg == None && optopt == old(optopt)
      ensures orig == Orig() == old(Orig()) && start == Start() == old(Start())
      ensures Rest(cfg) == old(Rest(cfg))
    {
      ArrangedStart(argv[..]);
      hide Arranged, Parse;
      if optind == 0 {
        BeforeNothing(Parse(cfg, argv[..], 1, ""));
        optind, place, nonoptStart, nonoptEnd := 1, "", -1, -1;
        orig, start, opts, nonopts := argv[..], 1, [], [];
      }
      optarg := None;
    }

    lemma FinishedEvents(r: Run)
      requires Finished(r, orig, start)
      ensures r.events == [] && !Misreads(r)
    {}

    /** A call has reported the event e. */
    ghost predicate Reports(code: int, index: Option<nat>, optoptBefore: int, e: Event)
      reads this
    {
      && code == e.code && index == e.index && optarg == e.arg
      && optopt == if e.optopt.Some? then e.optopt.value else optoptBefore
    }
  }

  datatype Scan = Skipped | AtOption | InOrder | Over

  lemma BeforeNothing(r: Run)
    ensures r.Before([], [], []) == r
  {
    assert [] + r.events == r.events && [] + r.opts == r.opts && [] + r.nonopts == r.nonopts;
  }

  lemma BeforeOne(r: Run, e: Event)
    ensures r.Before([e], [], []).events != [] && r.Before([e], [], []).events[0] == e
  {}

  lemma BeforeEvents(r: Run, e: seq<Event>)
    ensures r.events == [] ==> r.Before(e, [], []).(events := []) == r && r.Before(e, [], []).events == e
  {
    assert [] + r.opts == r.opts && [] + r.nonopts == r.nonopts;
  }

  lemma BeforeBefore(r: Run, e1: seq<Event>, o1: seq<string>, n1: seq<string>,
                     e2: seq<Event>, o2: seq<string>, n2: seq<string>)
    ensures r.Before(e2, o2, n2).Before(e1, o1, n1) == r.Before(e1 + e2, o1 + o2, n1 + n2)
  {
    assert e1 + (e2 + r.events) == e1 + e2 + r.events;
    assert o1 + (o2 + r.opts) == o1 + o2 + r.opts;
    assert n1 + (n2 + r.nonopts) == n1 + n2 + r.nonopts;
  }

  // ----- whole runs -----

  /** What a caller sees of an event. */
  datatype Report = Report(code: int, arg: Option<string>, index: Option<nat>)

  ghost predicate SameReports(reports: seq<Report>, events: seq<Event>) {
    && |reports| == |events|
    && forall k :: 0 <= k < |events| ==> reports[k] == Report(events[k].code, events[k].arg, events[k].index)
  }

  /** The final arrangement holds the same arguments as the vector did at the start, and from
      the first argument not consumed on, what was skipped followed by what was never read. */
  lemma FinalArguments(cfg: Config, s: seq<string>)
    requires 1 <= |s|
    ensures var r := Parse(cfg, s, 1, "");
      && var a := Layout(s, 1, r.opts, r.nonopts, r.stop);
      && |a| == |s| && multiset(a) == multiset(s) && 1 + |r.opts| <= |a|
      && a[..1] == s[..1] && a[1..1 + |r.opts|] == r.opts && a[1 + |r.opts|..] == r.nonopts + s[r.stop..]
  {
    hide Parse, IsMerge;
    var r := Parse(cfg, s, 1, "");
    ParseMerges(cfg, s, 1, "");
    MergeCounts(s[1..r.stop], r.opts, r.nonopts);
    assert s == s[..1] + s[1..r.stop] + s[r.stop..];
    Rearranged(s[..1], s[1..r.stop], s[r.stop..], r.opts, r.nonopts);
  }

  lemma Rearranged<T>(p: seq<T>, read: seq<T>, tail: seq<T>, o: seq<T>, n: seq<T>)
    requires |read| == |o| + |n| && multiset(read) == multiset(o) + multiset(n)
    ensures var a, s := p + o + n + tail, p + read + tail;
      && |a| == |s| && multiset(a) == multiset(s)
      && a[..|p|] == p && a[|p|..|p| + |o|] == o && a[|p| + |o|..] == n + tail
  {}

  /** With long options, or with '-' as an option letter, every run ends properly. */
  lemma {:induction false} NeverStuck(cfg: Config, s: seq<string>, i: nat, place: string)
    requires cfg.long.Some? || '-' in cfg.Letters()
    requires place != "" ==> i < |s| && (|place| < |s[i]| || '-' in cfg.Letters())
    ensures Parse(cfg, s, i, place).end != AtStuck
    decreases |s| - i, if place == "" then (if i < |s| then |s[i]| + 1 else 0) else |place|
  {
    if place == "" {
      if i < |s| {
        if IsNonOption(cfg, s[i]) {
          NeverStuck(cfg, s, i + 1, "");
        } else if s[i] != "--" {
          NeverStuck(cfg, s, i, Scanned(s[i]));
        }
      }
    } else {
      var t := OptionStep(cfg, s, i, place);
      hide LongStep, Selected;
      assert !t.Stuck?;
      if t.Step? { NeverStuck(cfg, s, t.next, t.place); }
    }
  }

  /** Without either there is such an argument for every configuration: the colon is reported as
      unknown, and the dash left of the cluster stops the run where it stands. */
  lemma StuckExample(cfg: Config)
    requires cfg.long.None? && '-' !in cfg.Letters()
    ensures Parse(cfg, ["prog", "-:-"], 1, "") == Run([Event(BADCH, None, Some(':' as int), None)], [], [], 1, AtStuck)
  {
    var s := ["prog", "-:-"];
    assert !IsNonOption(cfg, s[1]) && Scanned(s[1]) == ":-";
    assert ShortStep(cfg, s, 1, "-") == Stuck;
    assert Parse(cfg, s, 1, "-") == Run([], [], [], 1, AtStuck);
    assert OptionStep(cfg, s, 1, ":-") == Step(Event(BADCH, None, Some(':' as int), None), 1, "-");
    assert s[1..1] == [];
    assert Parse(cfg, s, 1, ":-") == Run([Event(BADCH, None, Some(':' as int), None)], [], [], 1, AtStuck);
  }

  /** Every run of a configuration ends properly if and only if it has long options or '-' is one of
      its letters. */
  lemma StuckIff(cfg: Config)
    ensures (forall s: seq<string> :: Parse(cfg, s, 1, "").end != AtStuck) <==> cfg.long.Some? || '-' in cfg.Letters()
  {
    if cfg.long.Some? || '-' in cfg.Letters() {
      forall s: seq<string> ensures Parse(cfg, s, 1, "").end != AtStuck {
        NeverStuck(cfg, s, 1, "");
      }
    } else {
      StuckExample(cfg);
    }
  }

  // ----- options that are misread -----

  /** The name selects a long option without a flag whose value is the scanner's own code. */
  ghost predicate SelectsBad(long: seq<LongOption>, name: string, shortToo: bool, k: nat) {
    && '=' !in name && SelectLong(long, name, shortToo) == Match(k) && k < |long|
    && !long[k].hasFlag && long[k].val == DONE
  }

  /** One can be spelled out: after two dashes, or after one for getopt_long_only. */
  ghost predicate Misreadable(cfg: Config) {
    && cfg.long.Some?
    && exists name: string, k: nat ::
         && name != ""
         && (|| SelectsBad(cfg.long.value, name, false, k)
             || (cfg.longOnly && AlsoShort(cfg, name) && SelectsBad(cfg.long.value, name, true, k)))
  }

  /** Every long option has a name to spell out. */
  predicate Named(cfg: Config) {
    cfg.long.Some? ==> forall o :: o in cfg.long.value ==> o.name != "" && o.name[0] != '='
  }

  lemma {:induction false} PartialsAlike(long: seq<LongOption>, name: string, hi: nat)
    requires hi <= |long| && |name| != 1
    ensures Partials(long, name, true, hi) == Partials(long, name, false, hi)
  {
    if hi == 0 {
    } else {
      PartialsAlike(long, name, hi - 1);
    }
  }

  lemma {:induction false} PartialsOfNothing(long: seq<LongOption>, hi: nat)
    requires hi <= |long| && forall o :: o in long ==> o.name != ""
    ensures |Partials(long, "", false, hi)| == hi
  {
    if hi == 0 {
    } else {
      assert long[hi - 1] in long;
      PartialsOfNothing(long, hi - 1);
    }
  }

  /** The empty name selects an option only if it is the only one, and then its first letter does. */
  lemma SelectedByNothing(long: seq<LongOption>, k: nat)
    requires (forall o :: o in long ==> o.name != "") && SelectLong(long, "", false) == Match(k)
    ensures k < |long| && SelectLong(long, long[k].name[..1], false) == Match(k)
  {
    var e := FirstExact(long, "", 0);
    assert forall i :: 0 <= i < |long| ==> long[i] in long;
    PartialsOfNothing(long, e);
    assert |long| == 1 && k == 0;
    SelectedAlone(long[0]);
    assert long == [long[0]];
  }

  lemma SelectedAlone(o: LongOption)
    requires o.name != ""
    ensures SelectLong([o], o.name[..1], false) == Match(0)
  {
    var name := o.name[..1];
    if o.name != name {
      assert Partials([o], name, false, 0) == [];
      assert Partials([o], name, false, 1) == [0];
      assert FirstExact([o], name, 0) == FirstExact([o], name, 1) == 1;
    }
  }

  /** What is misread was selected by a name. */
  lemma MisreadSelected(cfg: Config, s: seq<string>, i: nat, text: string, shortToo: bool)
    requires cfg.long.Some? && i < |s| && LongStep(cfg, s, i, text, Selected(cfg, text, shortToo)).Misread?
    ensures exists k: nat :: SelectsBad(cfg.long.value, LongName(text), shortToo, k)
  {
    var m := Selected(cfg, text, shortToo);
    hide SelectLong;
    assert SelectsBad(cfg.long.value, LongName(text), shortToo, m.index);
  }

  lemma SelectedMisreadable(cfg: Config, name: string, k: nat)
    requires cfg.long.Some? && Named(cfg) && SelectsBad(cfg.long.value, name, false, k)
    ensures Misreadable(cfg)
  {
    if name == "" {
      SelectedByNothing(cfg.long.value, k);
      hide SelectLong;
      assert cfg.long.value[k] in cfg.long.value;
      assert SelectsBad(cfg.long.value, cfg.long.value[k].name[..1], false, k);
    }
  }

  lemma LongReads(cfg: Config, s: seq<string>, i: nat, text: string)
    requires cfg.long.Some? && i < |s| && Named(cfg) && !Misreadable(cfg)
    ensures !LongStep(cfg, s, i, text, Selected(cfg, text, false)).Misread?
  {
    hide LongStep, Selected, SelectsBad, Misreadable, Named;
    if LongStep(cfg, s, i, text, Selected(cfg, text, false)).Misread? {
      MisreadSelected(cfg, s, i, text, false);
      var k: nat :| SelectsBad(cfg.long.value, LongName(text), false, k);
      SelectedMisreadable(cfg, LongName(text), k);
    }
  }

  lemma ShortMisreadable(cfg: Config, text: string, k: nat)
    requires cfg.long.Some? && Named(cfg) && cfg.longOnly && AlsoShort(cfg, text)
    requires SelectsBad(cfg.long.value, LongName(text), true, k)
    ensures Misreadable(cfg)
  {
    var name := LongName(text);
    hide SelectLong;
    if |name| == 1 {
      assert name[0] == text[0] && AlsoShort(cfg, name);
    } else {
      SelectedAlike(cfg.long.value, name);
      SelectedMisreadable(cfg, name, k);
    }
  }

  /** The same where the text may be a short option too. */
  lemma LongOnlyReads(cfg: Config, s: seq<string>, i: nat, text: string)
    requires cfg.long.Some? && i < |s| && Named(cfg) && !Misreadable(cfg) && cfg.longOnly && AlsoShort(cfg, text)
    ensures !LongStep(cfg, s, i, text, Selected(cfg, text, true)).Misread?
  {
    hide LongStep, Selected, SelectsBad, Misreadable, Named, AlsoShort;
    if LongStep(cfg, s, i, text, Selected(cfg, text, true)).Misread? {
      MisreadSelected(cfg, s, i, text, true);
      var k: nat :| SelectsBad(cfg.long.value, LongName(text), true, k);
      ShortMisreadable(cfg, text, k);
    }
  }

  lemma SelectedAlike(long: seq<LongOption>, name: string)
    requires |name| != 1
    ensures SelectLong(long, name, true) == SelectLong(long, name, false)
  {
    PartialsAlike(long, name, FirstExact(long, name, 0));
  }

  /** No option is misread where none has that value, or none that has it can be spelled out. */
  lemma StepReads(cfg: Config, s: seq<string>, i: nat, place: string)
    requires i < |s| && place != "" && (cfg.WellFormed() || (Named(cfg) && !Misreadable(cfg)))
    ensures !OptionStep(cfg, s, i, place).Misread?
  {
    hide LongStep, Selected, Misreadable, Named;
    if cfg.long.Some? && !cfg.WellFormed() {
      LongReads(cfg, s, i, s[i]);
      if i + 1 < |s| { LongReads(cfg, s, i + 1, s[i + 1]); }
      LongReads(cfg, s, i, LongText(place));
      if cfg.longOnly && AlsoShort(cfg, place) { LongOnlyReads(cfg, s, i, place); }
    }
  }

  lemma {:induction false} NeverMisread(cfg: Config, s: seq<string>, i: nat, place: string)
    requires (cfg.WellFormed() || (Named(cfg) && !Misreadable(cfg))) && (place != "" ==> i < |s|)
    ensures Parse(cfg, s, i, place).end != AtMisread
    decreases |s| - i, if place == "" then (if i < |s| then |s[i]| + 1 else 0) else |place|
  {
    hide OptionStep, Misreadable, Named;
    if place == "" {
      if i < |s| {
        if IsNonOption(cfg, s[i]) {
          NeverMisread(cfg, s, i + 1, "");
        } else if s[i] != "--" {
          NeverMisread(cfg, s, i, Scanned(s[i]));
        }
      }
    } else {
      var t := OptionStep(cfg, s, i, place);
      StepReads(cfg, s, i, place);
      if t.Step? { NeverMisread(cfg, s, t.next, t.place); }
    }
  }

  /** After two dashes it is misread. */
  lemma MisreadLong(cfg: Config, name: string, k: nat, arg: string)
    requires cfg.long.Some? && name != "" && SelectsBad(cfg.long.value, name, false, k)
    ensures Parse(cfg, ["prog", "--" + name, arg], 1, "") == Run([], [], [], 1, AtMisread)
  {
    var s := ["prog", "--" + name, arg];
    assert s[1][0] == '-' && s[1][2] == name[0] && !IsNonOption(cfg, s[1]) && s[1] != "--";
    assert Scanned(s[1]) == "-" + name && LongText("-" + name) == name;
    IndexOfAbsent(name, '=');
    assert LongName(name) == name;
    hide SelectLong;
    assert OptionStep(cfg, s, 1, "-" + name) == Misread;
  }

  /** After one dash too, where that is tried. */
  lemma MisreadShort(cfg: Config, name: string, k: nat, arg: string)
    requires cfg.long.Some? && cfg.longOnly && AlsoShort(cfg, name) && SelectsBad(cfg.long.value, name, true, k)
    ensures Parse(cfg, ["prog", "-" + name, arg], 1, "") == Run([], [], [], 1, AtMisread)
  {
    var s := ["prog", "-" + name, arg];
    assert s[1][0] == '-' && s[1][1] == name[0] != '-' && !IsNonOption(cfg, s[1]);
    assert Scanned(s[1]) == name && LongText(name) == name;
    IndexOfAbsent(name, '=');
    assert LongName(name) == name;
    hide SelectLong;
    assert OptionStep(cfg, s, 1, name) == Misread;
  }

  lemma MisreadRun(cfg: Config) returns (s: seq<string>)
    requires Misreadable(cfg)
    ensures Parse(cfg, s, 1, "").end == AtMisread
  {
    hide Parse, SelectsBad, AlsoShort;
    var name: string, k: nat :|
      && name != ""
      && (|| SelectsBad(cfg.long.value, name, false, k)
          || (cfg.longOnly && AlsoShort(cfg, name) && SelectsBad(cfg.long.value, name, true, k)));
    if SelectsBad(cfg.long.value, name, false, k) {
      MisreadLong(cfg, name, k, "");
      s := ["prog", "--" + name, ""];
    } else {
      MisreadShort(cfg, name, k, "");
      s := ["prog", "-" + name, ""];
    }
  }

  /** Some run misreads an option if and only if one with that value can be spelled out. */
  lemma MisreadIff(cfg: Config)
    requires Named(cfg)
    ensures (exists s: seq<string> :: Parse(cfg, s, 1, "").end == AtMisread) <==> Misreadable(cfg)
  {
    hide *;
    if Misreadable(cfg) {
      var s := MisreadRun(cfg);
    } else {
      forall s: seq<string> ensures Parse(cfg, s, 1, "").end != AtMisread {
        NeverMisread(cfg, s, 1, "");
      }
    }
  }

  /** A caller's loop: call until -1 is returned. It terminates, and reports exactly the
      predicted events; the scanner is left as Finished says, unless it has misread an option. */
  method ParseAll(argv: array<string>, cfg: Config) returns (reports: seq<Report>, scanner: Scanner, misread: bool)
    modifies argv
    ensures misread <==> Parse(cfg, old(argv[..]), 1, "").end == AtMisread
    ensures SameReports(reports, Parse(cfg, old(argv[..]), 1, "").events)
    ensures scanner.argv == argv
    ensures var r := Parse(cfg, old(argv[..]), 1, "");
      !misread ==> scanner.Finished(r.(events := []), old(argv[..]), 1)
  {
    scanner := new Scanner(argv);
    hide Parse, Scanner.Finished, Scanner.InRun;
    ghost var r, done := scanner.Rest(cfg), [];
    reports, misread := [], false;
    BeforeNothing(r);
    while true
      invariant fresh(scanner) && scanner.argv == argv && scanner.Valid(cfg)
      invariant scanner.Orig() == old(argv[..]) && scanner.Start() == 1
      invariant r == scanner.Rest(cfg).Before(done, [], [])
      invariant SameReports(reports, done)
      decreases |scanner.Rest(cfg).events|
    {
      ghost var rest := scanner.Rest(cfg);
      var code, index, lost := scanner.Getopt(cfg);
      if lost || code == DONE {
        BeforeEvents(rest, done);
        misread := lost;
        return;
      }
      ghost var e := rest.events[0];
      reports := reports + [Report(code, scanner.optarg, index)];
      BeforeBefore(scanner.Rest(cfg), done, [], [], [e], [], []);
      done := done + [e];
    }
  }
}
