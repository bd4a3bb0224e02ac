/** The logger's level filter (logger/logger.c): configure_log_levels_from_env
    folds the comma-separated LOG_LEVELS string into the mask of enabled
    levels, and log_output_ext drops a message whose level is not in it. The
    six LOG_LEVEL_* bits are the six constructors of Level and the mask is the
    set of levels whose bit is set. */
module LogLevels {
  import opened Options

  datatype Level = Fatal | Error | Warn | Info | Debug | Trace

  /** LOG_LEVEL_ALL, the mask the logger starts with. */
  const AllLevels: set<Level> := {Fatal, Error, Warn, Info, Debug, Trace}

  /** The label the parser matches a level against. */
  function Name(l: Level): string {
    match l
    case Fatal => "FATAL"
    case Error => "ERROR"
    case Warn => "WARN"
    case Info => "INFO"
    case Debug => "DEBUG"
    case Trace => "TRACE"
  }

  /** log_output_ext's quick filter: a message is written only when its
      level's bit is in the mask. */
  predicate ShouldEmit(mask: set<Level>, l: Level) {
    l in mask
  }

  // ---------------------------------------------------------------------------
  // strtok(input, ",")

  /** The length of the run of non-commas s starts with. */
  function RunLength(s: string): (n: nat)
    ensures n <= |s| && ',' !in s[..n] && (n < |s| ==> s[n] == ',')
  {
    if s == [] || s[0] == ',' then 0 else 1 + RunLength(s[1..])
  }

  /** The tokens strtok returns for the delimiter ",": the maximal runs of
      non-commas, so empty fields never appear. */
  function Tokens(s: string): (ts: seq<string>)
    ensures forall i | 0 <= i < |ts| :: ts[i] != [] && ',' !in ts[i]
    decreases |s|
  {
    if s == [] then []
    else if s[0] == ',' then Tokens(s[1..])
    else
      var n := RunLength(s);
      [s[..n]] + Tokens(s[n..])
  }

  /** The tokens written out with one comma between each two. */
  function Join(ts: seq<string>): string {
    if ts == [] then [] else if |ts| == 1 then ts[0] else ts[0] + "," + Join(ts[1..])
  }

  lemma {:induction false} RunLengthOf(t: string, rest: string)
    requires ',' !in t && (rest == [] || rest[0] == ',')
    ensures RunLength(t + rest) == |t|
  {
    if t != [] {
      assert t[0] in t;
      assert (t + rest)[0] == t[0] && (t + rest)[1..] == t[1..] + rest;
      assert forall c | c in t[1..] :: c in t;
      RunLengthOf(t[1..], rest);
    } else {
      assert t + rest == rest;
    }
  }

  /** Splitting tokens joined with commas gives the tokens back. */
  lemma {:induction false} TokensJoin(ts: seq<string>)
    requires forall i | 0 <= i < |ts| :: ts[i] != [] && ',' !in ts[i]
    ensures Tokens(Join(ts)) == ts
  {
    if |ts| == 1 {
      assert ts[0] + [] == ts[0];
      RunLengthOf(ts[0], []);
      assert ts[0][|ts[0]|..] == [];
    } else if |ts| > 1 {
      var s := Join(ts);
      var rest := "," + Join(ts[1..]);
      assert s == ts[0] + rest;
      RunLengthOf(ts[0], rest);
      assert s[..|ts[0]|] == ts[0] && s[|ts[0]|..] == rest;
      assert rest[1..] == Join(ts[1..]);
      TokensJoin(ts[1..]);
    }
  }

  /** Extra commas anywhere only add empty fields, which strtok skips. */
  lemma ExtraCommas(s: string)
    ensures Tokens("," + s) == Tokens(s)
    ensures s != [] && s[0] != ',' ==> Tokens(s) == [s[..RunLength(s)]] + Tokens(s[RunLength(s)..])
  {
    assert ("," + s)[1..] == s;
  }

  // ---------------------------------------------------------------------------
  // One token

  /** The token with its leading spaces skipped; trailing spaces stay. */
  function TrimLeft(t: string): (r: string)
    ensures |r| <= |t| && r == t[|t| - |r|..]
    ensures forall i | 0 <= i < |t| - |r| :: t[i] == ' '
    ensures r == [] || r[0] != ' '
  {
    if t != [] && t[0] == ' ' then TrimLeft(t[1..]) else t
  }

  /** A leading '-' asks to disable, a leading '+' is dropped: the flag and
      the rest of the token. */
  function StripSign(t: string): (r: (bool, string))
    ensures r.0 <==> t != [] && t[0] == '-'
    ensures r.1 == if t != [] && t[0] in {'-', '+'} then t[1..] else t
  {
    if t != [] && t[0] == '-' then (true, t[1..])
    else if t != [] && t[0] == '+' then (false, t[1..])
    else (false, t)
  }

  function Lower(c: char): char {
    if 'A' <= c <= 'Z' then (c as int + 32) as char else c
  }

  /** The string with its capital letters made small. */
  function LowerAll(s: string): (r: string)
    ensures |r| == |s| && forall i | 0 <= i < |s| :: r[i] == Lower(s[i])
  {
    if s == [] then [] else [Lower(s[0])] + LowerAll(s[1..])
  }

  /** strcasecmp(token, word) == 0, for a token without NUL and a word given
      in small letters: the token folds to the word. */
  predicate Matches(token: string, word: string) {
    LowerAll(token) == word
  }

  /** A level's label folded to small letters. */
  function Word(l: Level): string {
    match l
    case Fatal => "fatal"
    case Error => "error"
    case Warn => "warn"
    case Info => "info"
    case Debug => "debug"
    case Trace => "trace"
  }

  /** The level a name stands for, trying FATAL to TRACE in turn; no name
      stands for two levels. */
  function LevelNamed(name: string): (r: Option<Level>)
    ensures forall l :: r == Some(l) <==> Matches(name, Word(l))
  {
    LevelOfWord(LowerAll(name))
  }

  /** The level whose folded label is w, if any: the labels differ in their
      first letter, so that letter picks the only candidate. */
  function LevelOfWord(w: string): (r: Option<Level>)
    ensures forall l :: r == Some(l) <==> w == Word(l)
  {
    if w == [] then None
    else
      var l := match w[0]
        case 'f' => Fatal
        case 'e' => Error
        case 'w' => Warn
        case 'i' => Info
        case 'd' => Debug
        case _ => Trace;
      if w == Word(l) then Some(l) else None
  }

  /** Word is the label with its capitals made small. */
  lemma WordIsFoldedName(l: Level)
    ensures Word(l) == LowerAll(Name(l))
  {
  }

  lemma WordsApart()
    ensures forall l, m | l != m :: Word(l) != Word(m)
  {
    forall l, m | l != m
      ensures Word(l) != Word(m)
    {
      WordsStartApart(l, m);
    }
  }

  /** What a token asks for. */
  datatype Request = EnableAll | DisableAll | Set(disable: bool, level: Level) | Unknown

  /** Trim, strip the sign, then match ALL, NONE (whatever the sign) or a
      level name, all without regard to case. */
  function Classify(t: string): (r: Request)
    ensures var s := StripSign(TrimLeft(t));
      && (r == EnableAll <==> Matches(s.1, "all"))
      && (r == DisableAll <==> Matches(s.1, "none"))
      && (r.Set? ==> r.disable == s.0 && Matches(s.1, Word(r.level)))
      && (r == Unknown <==> !Matches(s.1, "all") && !Matches(s.1, "none") && forall l :: !Matches(s.1, Word(l)))
  {
    var s := StripSign(TrimLeft(t));
    if Matches(s.1, "all") then EnableAll
    else if Matches(s.1, "none") then DisableAll
    else match LevelNamed(s.1)
      case Some(l) => Set(s.0, l)
      case None => Unknown
  }

  // ---------------------------------------------------------------------------
  // The fold

  /** The mask, and whether it has been wiped yet (the cleared flag). */
  datatype Config = Config(mask: set<Level>, cleared: bool)

  /** One request: ALL and NONE set the mask and count as a wipe; a level
      clears or sets its bit, except that the first enabling level before any
      wipe starts from an empty mask; an unknown token changes nothing. */
  function Step(c: Config, q: Request): (r: Config)
    ensures q == Unknown ==> r == c
    ensures q == EnableAll ==> r == Config(AllLevels, true)
    ensures q == DisableAll ==> r == Config({}, true)
    ensures q.Set? && q.disable ==> r == c.(mask := c.mask - {q.level})
    ensures q.Set? && !q.disable ==> r == Config((if c.cleared then c.mask else {}) + {q.level}, true)
  {
    match q
    case EnableAll => Config(AllLevels, true)
    case DisableAll => Config({}, true)
    case Unknown => c
    case Set(disable, l) =>
      var c1 := if !disable && !c.cleared then Config({}, true) else c;
      if disable then c1.(mask := c1.mask - {l}) else c1.(mask := c1.mask + {l})
  }

  /** The requests applied left to right. */
  function Fold(c: Config, qs: seq<Request>): Config
    decreases |qs|
  {
    if qs == [] then c else Step(Fold(c, qs[..|qs| - 1]), qs[|qs| - 1])
  }

  /** What each token asks for. */
  function Requests(ts: seq<string>): (qs: seq<Request>)
    ensures |qs| == |ts| && forall i | 0 <= i < |ts| :: qs[i] == Classify(ts[i])
  {
    seq(|ts|, i requires 0 <= i < |ts| => Classify(ts[i]))
  }

  // ---------------------------------------------------------------------------
  // A reference reading of the fold

  /** A request that wipes the mask if it is the first to do so: ALL, NONE
      or an enabling level. */
  predicate Wipes(q: Request) {
    q == EnableAll || q == DisableAll || (q.Set? && !q.disable)
  }

  /** What request i says about level l, if anything: ALL and NONE speak for
      every level, a level request for its own level, and the first wiping
      request, when it names another level, switches l off. */
  function Verdict(qs: seq<Request>, i: int, l: Level): Option<bool>
    requires 0 <= i < |qs|
  {
    match qs[i]
    case EnableAll => Some(true)
    case DisableAll => Some(false)
    case Unknown => None
    case Set(disable, m) =>
      if m == l then Some(!disable)
      else if !disable && forall j | 0 <= j < i :: !Wipes(qs[j]) then Some(false)
      else None
  }

  /** Level l is on after the requests when the last request with a verdict
      on l says so, or, if none has one, when it was on before. */
  function Enabled(mask: set<Level>, qs: seq<Request>, l: Level): bool
    decreases |qs|
  {
    if qs == [] then l in mask
    else match Verdict(qs, |qs| - 1, l)
      case Some(b) => b
      case None => Enabled(mask, qs[..|qs| - 1], l)
  }

  /** The flag is set once some request has wiped the mask. */
  lemma {:induction false} ClearedMeansWiped(mask: set<Level>, qs: seq<Request>)
    ensures Fold(Config(mask, false), qs).cleared <==> exists j | 0 <= j < |qs| :: Wipes(qs[j])
    decreases |qs|
  {
    if qs != [] {
      var p := qs[..|qs| - 1];
      ClearedMeansWiped(mask, p);
      if exists j | 0 <= j < |p| :: Wipes(p[j]) {
        var j :| 0 <= j < |p| && Wipes(p[j]);
        assert qs[j] == p[j];
      }
      if exists j | 0 <= j < |qs| :: Wipes(qs[j]) {
        var j :| 0 <= j < |qs| && Wipes(qs[j]);
        if j < |p| {
          assert p[j] == qs[j];
        }
      }
    }
  }

  /** The fold agrees with the reference reading on every level. */
  lemma {:induction false} FoldEnabled(mask: set<Level>, qs: seq<Request>, l: Level)
    ensures l in Fold(Config(mask, false), qs).mask <==> Enabled(mask, qs, l)
    decreases |qs|
  {
    if qs != [] {
      var n := |qs| - 1;
      var p := qs[..n];
      FoldEnabled(mask, p, l);
      ClearedMeansWiped(mask, p);
      assert forall j | 0 <= j < n :: p[j] == qs[j];
    }
  }

  /** configure_log_levels_from_env: with LOG_LEVELS unset the mask stays;
      otherwise its tokens are applied in order, starting with the flag clear.
      Each level ends up on exactly when the reference reading says so. */
  method ConfigureLevels(mask: set<Level>, env: Option<string>) returns (r: set<Level>)
    ensures env == None ==> r == mask
    ensures env != None ==> forall l :: l in r <==> Enabled(mask, Requests(Tokens(env.value)), l)
  {
    if env == None {
      return mask;
    }
    var ts := Tokens(env.value);
    ghost var qs := Requests(ts);
    var c := Config(mask, false);
    var i := 0;
    while i < |ts|
      invariant 0 <= i <= |ts|
      invariant c == Fold(Config(mask, false), qs[..i])
    {
      assert qs[..i + 1][..i] == qs[..i];
      c := Step(c, Classify(ts[i]));
      i := i + 1;
    }
    assert qs[..|ts|] == qs;
    forall l
      ensures l in c.mask <==> Enabled(mask, qs, l)
    {
      FoldEnabled(mask, qs, l);
    }
    r := c.mask;
  }

  // ---------------------------------------------------------------------------
  // Consequences

  /** An enabling level before any wipe starts from an empty mask, even after
      a '-' request: "-ERROR,+INFO" leaves only INFO on. */
  lemma FirstEnableWipes(mask: set<Level>)
    ensures Fold(Config(mask, false), [Set(true, Error), Set(false, Info)]).mask == {Info}
  {
    var qs := [Set(true, Error), Set(false, Info)];
    assert qs[..1] == [Set(true, Error)] && qs[..1][..0] == [];
  }

  /** After a wipe, '-LEVEL' and '+LEVEL' clear and set only their own bit. */
  lemma SetAfterWipe(c: Config, disable: bool, l: Level)
    requires c.cleared
    ensures var r := Step(c, Set(disable, l));
      && r.cleared
      && (l in r.mask <==> !disable)
      && forall m | m != l :: m in r.mask <==> m in c.mask
  {
  }

  lemma WordsStartApart(l: Level, m: Level)
    requires l != m
    ensures Word(l)[0] != Word(m)[0]
  {
  }

  /** Spaces before the sign are skipped and the case of the letters does not
      matter: any number of spaces, a sign, then any spelling of a level's
      label asks to set or clear that level. */
  lemma SpacedSign(n: nat, disable: bool, name: string, l: Level)
    requires LowerAll(name) == Word(l)
    ensures Classify(Spaces(n) + [if disable then '-' else '+'] + name) == Set(disable, l)
  {
    var rest := [if disable then '-' else '+'] + name;
    assert Spaces(n) + [if disable then '-' else '+'] + name == Spaces(n) + rest;
    TrimSpaces(n, rest);
    assert rest[1..] == name;
    ClassifySet(Spaces(n) + rest, disable, l);
  }

  /** n spaces. */
  function Spaces(n: nat): (s: string)
    ensures |s| == n && forall i | 0 <= i < n :: s[i] == ' '
  {
    seq(n, _ => ' ')
  }

  lemma {:induction false} TrimSpaces(n: nat, t: string)
    requires t == [] || t[0] != ' '
    ensures TrimLeft(Spaces(n) + t) == t
  {
    if n > 0 {
      assert (Spaces(n) + t)[1..] == Spaces(n - 1) + t;
      TrimSpaces(n - 1, t);
    } else {
      assert Spaces(0) + t == t;
    }
  }

  /** A token that trims and strips to some spelling of a level's label asks
      to set or clear that level. */
  lemma ClassifySet(t: string, disable: bool, l: Level)
    requires StripSign(TrimLeft(t)).0 == disable && LowerAll(StripSign(TrimLeft(t)).1) == Word(l)
    ensures Classify(t) == Set(disable, l)
  {
    FoldedWord(l);
  }

  /** A level's small-letter label is left alone by folding, names that level
      only and is neither ALL nor NONE. */
  lemma FoldedWord(l: Level)
    ensures LowerAll(Word(l)) == Word(l) && LevelNamed(Word(l)) == Some(l)
    ensures Word(l) != "all" && Word(l) != "none"
  {
    var w := Word(l);
    forall i | 0 <= i < |w|
      ensures Lower(w[i]) == w[i]
    {
    }
    assert LowerAll(w) == w;
  }

  /** A sign in front of ALL is ignored. */
  lemma SignedAll()
    ensures Classify("-All") == EnableAll
  {
    assert StripSign(TrimLeft("-All")) == (true, "All");
    assert LowerAll("All") == "all";
  }

  /** A token that ends in a space is unknown: strcasecmp sees the space. */
  lemma TrailingSpace(t: string)
    requires t != [] && t[|t| - 1] == ' '
    ensures Classify(t) == Unknown
  {
    var w := LowerAll(StripSign(TrimLeft(t)).1);
    FoldedEndsInSpace(t);
    assert w != "all" && w != "none";
    forall l
      ensures w != Word(l)
    {
      WordEnd(l);
    }
  }

  lemma FoldedEndsInSpace(t: string)
    requires t != [] && t[|t| - 1] == ' '
    ensures var w := LowerAll(StripSign(TrimLeft(t)).1);
      w == [] || w[|w| - 1] == ' '
  {
    var name := StripSign(TrimLeft(t)).1;
    assert name == [] || name[|name| - 1] == ' ';
  }

  lemma WordEnd(l: Level)
    ensures Word(l) != [] && Word(l)[|Word(l)| - 1] != ' '
  {
  }

  /** After LOG_LEVELS is folded in, log_output_ext writes a message of level l
      exactly when the last request that speaks for l enabled it, or, when none
      does, when the starting mask had it. */
  lemma EmitConfigured(mask: set<Level>, env: string, l: Level)
    ensures var qs := Requests(Tokens(env));
      ShouldEmit(Fold(Config(mask, false), qs).mask, l) <==> Enabled(mask, qs, l)
  {
    FoldEnabled(mask, Requests(Tokens(env)), l);
  }

  /** "NONE" silences every level; the initial mask emits every level. */
  lemma NoneSilences(l: Level)
    ensures !ShouldEmit(Fold(Config(AllLevels, false), [DisableAll]).mask, l)
    ensures ShouldEmit(AllLevels, l)
  {
    assert [DisableAll][..0] == [];
  }
}
