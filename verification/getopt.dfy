/**
  hw2/src/getopt.c: the resumable option scanner, one letter per call, against a parser that reads
  the argument list from left to right in one go.
*/
module GetOpt {
  import opened Wrappers

  /** What one letter stands for. */
  datatype Event = Flag(letter: char) | WithArg(letter: char, arg: string) | Illegal(letter: char) | Missing(letter: char)

  /** The first place of c in the option string, or its length: strchr. */
  function Place(opts: string, c: char): (k: nat)
    ensures k <= |opts| && (k < |opts| ==> opts[k] == c) && c !in opts[..k]
  {
    if opts == [] || opts[0] == c then 0
    else
      var k := 1 + Place(opts[1..], c);
      assert opts[..k] == [opts[0]] + opts[1..][..k - 1];
      k
  }

  predicate Legal(opts: string, c: char) {
    c != ':' && Place(opts, c) < |opts|
  }

  predicate TakesArg(opts: string, c: char) {
    Legal(opts, c) && Place(opts, c) + 1 < |opts| && opts[Place(opts, c) + 1] == ':'
  }

  /** An argument that the scanner stops at: not a dash, or nothing but a dash. */
  predicate Operand(a: string) {
    |a| < 2 || a[0] != '-'
  }

  // ----- the parser -----

  datatype Parsed = Parsed(events: seq<Event>, rest: seq<string>)

  function Before(e: Event, p: Parsed): Parsed {
    Parsed([e] + p.events, p.rest)
  }

  function Parse(opts: string, args: seq<string>): Parsed
    decreases |args|, 0
  {
    if args == [] || Operand(args[0]) then Parsed([], args)
    else if args[0] == "--" then Parsed([], args[1..])
    else Letters(opts, args[0][1..], args[1..])
  }

  /** The rest w of a group of letters, with the arguments behind the group. */
  function Letters(opts: string, w: string, args: seq<string>): Parsed
    decreases |args|, 1 + |w|
  {
    if w == [] then Parse(opts, args)
    else if !Legal(opts, w[0]) then Before(Illegal(w[0]), Letters(opts, w[1..], args))
    else if !TakesArg(opts, w[0]) then Before(Flag(w[0]), Letters(opts, w[1..], args))
    else if w[1..] != [] then Before(WithArg(w[0], w[1..]), Parse(opts, args))
    else if args == [] then Before(Missing(w[0]), Parse(opts, args))
    else Before(WithArg(w[0], args[0]), Parse(opts, args[1..]))
  }

  // ----- what the option string allows -----

  /** A letter is an option when it stands in the string; a colon never is one. */
  lemma LegalExactly(opts: string, c: char)
    ensures Legal(opts, c) <==> c != ':' && c in opts
  {
    var k := Place(opts, c);
    if k == |opts| {
      assert opts[..k] == opts;
    }
  }

  /** It takes an argument when a colon follows the first place where it stands. */
  lemma TakesArgExactly(opts: string, c: char)
    ensures TakesArg(opts, c) <==> c != ':' && exists k :: ColonBehindFirst(opts, c, k)
  {
    var n := Place(opts, c);
    if TakesArg(opts, c) {
      assert ColonBehindFirst(opts, c, n);
    }
    if exists k :: ColonBehindFirst(opts, c, k) {
      var k :| ColonBehindFirst(opts, c, k);
      FirstPlaceIs(opts, c, k);
    }
  }

  lemma {:induction false} FirstPlaceIs(opts: string, c: char, k: nat)
    requires k < |opts| && opts[k] == c && c !in opts[..k]
    ensures Place(opts, c) == k
  {
    if k > 0 {
      assert opts[..k][0] == opts[0];
      assert forall x :: x in opts[1..][..k - 1] ==> x in opts[..k];
      FirstPlaceIs(opts[1..], c, k - 1);
    }
  }

  predicate ColonBehindFirst(opts: string, c: char, k: int) {
    0 <= k && k + 1 < |opts| && opts[k] == c && opts[k + 1] == ':' && c !in opts[..k]
  }

  // ----- arguments that say something, and what is read from them -----

  /** How an event can be written: a letter, with its argument joined to it or behind it. */
  function Written(e: Event, joined: bool): seq<string> {
    match e
    case Flag(c) => ["-" + [c]]
    case Illegal(c) => ["-" + [c]]
    case WithArg(c, a) => if joined then ["-" + ([c] + a)] else ["-" + [c], a]
    case Missing(c) => ["-" + [c]]
  }

  /** Whether it means that: an argument that is joined is not empty, and nothing reads "--". */
  predicate Means(opts: string, e: Event, joined: bool) {
    match e
    case Flag(c) => Legal(opts, c) && !TakesArg(opts, c) && c != '-'
    case Illegal(c) => !Legal(opts, c) && c != '-'
    case WithArg(c, a) => TakesArg(opts, c) && if joined then a != "" else c != '-'
    case Missing(_) => false
  }

  function WrittenAll(es: seq<(Event, bool)>): seq<string> {
    if es == [] then [] else Written(es[0].0, es[0].1) + WrittenAll(es[1..])
  }

  function EventsOf(es: seq<(Event, bool)>): seq<Event> {
    if es == [] then [] else [es[0].0] + EventsOf(es[1..])
  }

  /** One event in front of any arguments. */
  lemma ParseFirst(opts: string, e: Event, joined: bool, args: seq<string>)
    requires Means(opts, e, joined)
    ensures Parse(opts, Written(e, joined) + args) == Before(e, Parse(opts, args))
  {
    var all := Written(e, joined) + args;
    var c := e.letter;
    assert all[0][0] == '-' && all[0][1] == c && all[0][1..][0] == c && |all[0]| >= 2;
    assert all[0] != "--";
    if e.WithArg? && joined {
      assert all[0][1..] == [c] + e.arg && ([c] + e.arg)[1..] == e.arg && all[1..] == args;
    } else if e.WithArg? {
      assert all[0][1..] == [c] && [c][1..] == [] && all[1..] == [e.arg] + args;
      assert ([e.arg] + args)[0] == e.arg && ([e.arg] + args)[1..] == args;
    } else {
      assert all[0][1..] == [c] && [c][1..] == [] && all[1..] == args;
      assert Letters(opts, [], args) == Parse(opts, args);
    }
  }

  lemma Associates<T>(a: seq<T>, b: seq<T>, c: seq<T>)
    ensures (a + b) + c == a + (b + c)
  {
  }

  /** Any events that are written out, with any arguments behind them, are read back. */
  lemma {:induction false} ParseReadsBack(opts: string, es: seq<(Event, bool)>, args: seq<string>)
    requires forall i :: 0 <= i < |es| ==> Means(opts, es[i].0, es[i].1)
    ensures var p := Parse(opts, args);
            Parse(opts, WrittenAll(es) + args) == Parsed(EventsOf(es) + p.events, p.rest)
  {
    hide Parse, Written, Means;
    var p := Parse(opts, args);
    if es == [] {
      assert WrittenAll(es) + args == args && EventsOf(es) + p.events == p.events;
    } else {
      var w, tail := Written(es[0].0, es[0].1), WrittenAll(es[1..]) + args;
      ParseReadsBack(opts, es[1..], args);
      ParseFirst(opts, es[0].0, es[0].1, tail);
      Associates(w, WrittenAll(es[1..]), args);
      Associates([es[0].0], EventsOf(es[1..]), p.events);
    }
  }

  /** Where reading stops: at an operand or a lone dash, behind "--", and at a letter whose argument is missing. */
  lemma ParseStops(opts: string, a: string, args: seq<string>, c: char)
    ensures Parse(opts, []) == Parsed([], [])
    ensures |a| < 2 || a[0] != '-' ==> Parse(opts, [a] + args) == Parsed([], [a] + args)
    ensures Parse(opts, ["--"] + args) == Parsed([], args)
    ensures TakesArg(opts, c) && c != '-' ==> Parse(opts, ["-" + [c]]) == Parsed([Missing(c)], [])
  {
    assert (["--"] + args)[1..] == args;
    var last := ["-" + [c]];
    assert last[1..] == [] && last[0][1..] == [c] && [c][1..] == [];
    assert last[0][1] == c;
  }

  // ----- grouped letters -----

  predicate NoArgs(opts: string, w: string) {
    forall k :: 0 <= k < |w| ==> !TakesArg(opts, w[k])
  }

  function Events(opts: string, w: string): seq<Event> {
    if w == [] then []
    else [if Legal(opts, w[0]) then Flag(w[0]) else Illegal(w[0])] + Events(opts, w[1..])
  }

  /** Letters that take no argument give one event each, and then comes what is behind them. */
  lemma {:induction false} LettersGoOn(opts: string, u: string, w: string, args: seq<string>)
    requires NoArgs(opts, u)
    ensures var p := Letters(opts, w, args);
            Letters(opts, u + w, args) == Parsed(Events(opts, u) + p.events, p.rest)
    decreases |u|
  {
    if u == [] {
      assert u + w == w;
    } else {
      assert (u + w)[0] == u[0] && (u + w)[1..] == u[1..] + w;
      LettersGoOn(opts, u[1..], w, args);
    }
  }

  lemma LettersEmit(opts: string, w: string, args: seq<string>)
    requires w != []
    ensures Letters(opts, w, args).events != []
  {
  }

  /**
    A group may be split behind letters that take no argument, and gives the same events and leaves
    the same operands, exactly when neither piece turns into the "--" that ends the options.
  */
  lemma SplitExactly(opts: string, u: string, w: string, args: seq<string>)
    requires u != [] && w != [] && NoArgs(opts, u)
    ensures Parse(opts, ["-" + u] + (["-" + w] + args)) == Parse(opts, ["-" + (u + w)] + args)
       <==> u != "-" && w != "-"
  {
    var whole, first, second := "-" + (u + w), "-" + u, "-" + w;
    assert whole[1..] == u + w && first[1..] == u && second[1..] == w;
    assert ([whole] + args)[1..] == args;
    assert ([first] + ([second] + args))[1..] == [second] + args && ([second] + args)[1..] == args;
    assert whole != "--" by {
      assert |whole| > 2;
    }
    LettersGoOn(opts, u, w, args);
    LettersGoOn(opts, u, [], [second] + args);
    assert u + [] == u;
    LettersEmit(opts, w, args);
    assert u == "-" <==> first == "--";
    assert w == "-" <==> second == "--";
  }

  function Singles(w: string): seq<string> {
    if w == [] then [] else ["-" + [w[0]]] + Singles(w[1..])
  }

  /** -abc is -a -b -c. */
  lemma {:induction false} UngroupedIsSame(opts: string, w: string, args: seq<string>)
    requires w != [] && NoArgs(opts, w) && '-' !in w
    ensures Parse(opts, ["-" + w] + args) == Parse(opts, Singles(w) + args)
    decreases |w|
  {
    hide Parse, Letters, TakesArg;
    var u, v := [w[0]], w[1..];
    NoArgsParts(opts, w, u, v);
    assert Singles(w) == ["-" + u] + Singles(v);
    hide NoArgs;
    if v == [] {
      assert w == u && Singles(v) == [] && ["-" + u] + [] == ["-" + u];
    } else {
      SplitExactly(opts, u, v, args);
      UngroupedIsSame(opts, v, args);
      assert ("-" + u)[1] == u[0];
      SameBehind(opts, "-" + u, ["-" + v] + args, Singles(v) + args);
      Associates(["-" + u], Singles(v), args);
    }
  }

  lemma NoArgsParts(opts: string, w: string, u: string, v: string)
    requires w != [] && NoArgs(opts, w) && '-' !in w && u == [w[0]] && v == w[1..]
    ensures w == u + v && NoArgs(opts, u) && NoArgs(opts, v) && '-' !in v && u[0] != '-' && !TakesArg(opts, u[0])
    ensures u != "-" && v != "-"
  {
    hide TakesArg;
    assert w[0] in w;
    assert v != [] ==> v[0] in w;
  }

  /** A first argument that is one letter without argument: what follows it may be exchanged for what parses alike. */
  lemma SameBehind(opts: string, a: string, args: seq<string>, args': seq<string>)
    requires |a| == 2 && a[0] == '-' && a != "--" && !TakesArg(opts, a[1]) && Parse(opts, args) == Parse(opts, args')
    ensures Parse(opts, [a] + args) == Parse(opts, [a] + args')
  {
    assert ([a] + args)[1..] == args && ([a] + args')[1..] == args';
    assert a[1..] == [a[1]] && a[1..] + [] == a[1..];
    LettersGoOn(opts, a[1..], [], args);
    LettersGoOn(opts, a[1..], [], args');
  }

  // ----- the scanner -----

  /** What one call reports: its result, and optopt and optarg after it. */
  predicate Reports(e: Event, r: char, optopt: char, optarg: Option<string>, before: Option<string>) {
    match e
    case Flag(c) => r == c && optopt == c && optarg == None
    case WithArg(c, a) => r == c && optopt == c && optarg == Some(a)
    case Illegal(c) => r == '?' && optopt == c && optarg == before
    case Missing(c) => r == '?' && optopt == c && optarg == before
  }

  class Scanner {
    const argv: seq<string>
    const opts: string
    var optind: nat
    var sp: nat
    var optopt: char
    var optarg: Option<string>

    constructor (args: seq<string>, o: string)
      ensures Valid() && argv == args && opts == o && optind == 1 && sp == 1 && optarg == None
    {
      argv, opts, optind, sp, optopt, optarg := args, o, 1, 1, '?', None;
    }

    /** Between two arguments, or inside a group of letters. */
    ghost predicate Valid()
      reads this
    {
      sp >= 1 && (sp > 1 ==> optind < |argv| && sp < |argv[optind]|)
    }

    /** What the parser still makes of the arguments from here on. */
    ghost function Ahead(): Parsed
      requires Valid()
      reads this
    {
      if sp == 1 then Parse(opts, if optind <= |argv| then argv[optind..] else [])
      else Letters(opts, argv[optind][sp..], argv[optind + 1..])
    }

    /** att_getopt: None is EOF. */
    method Next() returns (r: Option<char>)
      requires Valid()
      modifies this
      ensures Valid() && (old(optind) <= |argv| ==> optind <= |argv|)
      ensures r.None? ==> old(Ahead()) == Parsed([], if optind <= |argv| then argv[optind..] else [])
      ensures r.None? ==> sp == old(sp) && optopt == old(optopt) && optarg == old(optarg)
      ensures r.Some? ==> old(Ahead()).events != [] && Reports(old(Ahead()).events[0], r.value, optopt, optarg, old(optarg))
      ensures r.Some? ==> old(Ahead()) == Before(old(Ahead()).events[0], Ahead())
      ensures r.Some? ==> optind > old(optind) || (optind == old(optind) && sp > old(sp))
    {
      if sp == 1 {
        if optind >= |argv| || |argv[optind]| < 2 || argv[optind][0] != '-' {
          return None;
        } else if argv[optind] == "--" {
          optind := optind + 1;
          return None;
        }
        assert argv[optind..][0] == argv[optind] && argv[optind..][1..] == argv[optind + 1..];
      }
      assert Ahead() == Letters(opts, argv[optind][sp..], argv[optind + 1..]);
      hide Parse, Letters;
      var c := Letter();
      return Some(c);
    }

    /** One letter of a group. */
    method Letter() returns (r: char)
      requires Valid() && optind < |argv| && sp < |argv[optind]|
      modifies this
      ensures Valid() && optind <= |argv|
      ensures var p := old(Letters(opts, argv[optind][sp..], argv[optind + 1..]));
              p.events != [] && Reports(p.events[0], r, optopt, optarg, old(optarg)) && p == Before(p.events[0], Ahead())
      ensures optind > old(optind) || (optind == old(optind) && sp > old(sp))
    {
      var arg := argv[optind];
      var c := arg[sp];
      assert arg[sp..][0] == c && arg[sp..][1..] == arg[sp + 1..];
      optopt := c;
      var cp := Place(opts, c);
      if c == ':' || cp == |opts| {
        StepOver();
        return '?';
      }
      if cp + 1 < |opts| && opts[cp + 1] == ':' {
        r := Argument(c);
      } else {
        StepOver();
        optarg := None;
        return c;
      }
    }

    /** The argument of a letter: the rest of its group or the next argument, if there is one. */
    method Argument(c: char) returns (r: char)
      requires optind < |argv| && 1 <= sp < |argv[optind]|
      modifies this`optind, this`sp, this`optarg
      ensures Valid() && optind <= |argv| && optind > old(optind) && sp == 1
      ensures var w, args := old(argv[optind][sp + 1..]), argv[old(optind) + 1..];
              if w == [] && args == [] then r == '?' && optarg == old(optarg) && Ahead() == Parse(opts, args)
              else if w == [] then r == c && optarg == Some(args[0]) && Ahead() == Parse(opts, args[1..])
              else r == c && optarg == Some(w) && Ahead() == Parse(opts, args)
    {
      var arg := argv[optind];
      r := c;
      if sp + 1 < |arg| {
        optarg := Some(arg[sp + 1..]);
        optind := optind + 1;
      } else {
        optind := optind + 1;
        if optind >= |argv| {
          sp := 1;
          return '?';
        }
        optarg := Some(argv[optind]);
        optind := optind + 1;
      }
      sp := 1;
    }

    /** To the next letter, or to the next argument behind the last one. */
    method StepOver()
      requires optind < |argv| && 1 <= sp < |argv[optind]|
      modifies this`optind, this`sp
      ensures Valid()
      ensures Ahead() == Letters(opts, old(argv[optind][sp + 1..]), argv[old(optind) + 1..])
      ensures optind <= |argv| && (optind > old(optind) || (optind == old(optind) && sp > old(sp)))
    {
      sp := sp + 1;
      if sp == |argv[optind]| {
        optind := optind + 1;
        sp := 1;
      }
    }
  }

  /** optarg before the call that made entry k. */
  function ArgBefore(args: seq<Option<string>>, k: nat): Option<string>
    requires k <= |args|
  {
    if k == 0 then None else args[k - 1]
  }

  /**
    Calling until the first EOF reports the parser's events one by one, each with its argument, and
    stops at the parser's operands.
  */
  method Scan(argv: seq<string>, opts: string)
    returns (results: seq<char>, letters: seq<char>, args: seq<Option<string>>, optind: nat)
    requires |argv| > 0
    ensures |results| == |letters| == |args| == |Parse(opts, argv[1..]).events|
    ensures forall k :: 0 <= k < |results| ==>
              Reports(Parse(opts, argv[1..]).events[k], results[k], letters[k], args[k], ArgBefore(args, k))
    ensures optind <= |argv| && argv[optind..] == Parse(opts, argv[1..]).rest
  {
    var s := new Scanner(argv, opts);
    ghost var all := Parse(opts, argv[1..]);
    results, letters, args := [], [], [];
    ghost var seen: seq<Event> := [];
    assert s.Ahead() == all;
    hide Parse, Letters, Reports, Scanner.Ahead, Scanner.Valid;
    while true
      invariant s.Valid() && s.argv == argv && s.opts == opts && s.optind <= |argv|
      invariant all == Parsed(seen + s.Ahead().events, s.Ahead().rest)
      invariant |results| == |letters| == |args| == |seen| && s.optarg == ArgBefore(args, |args|)
      invariant forall k :: 0 <= k < |seen| ==> Reports(seen[k], results[k], letters[k], args[k], ArgBefore(args, k))
      decreases |s.Ahead().events|
    {
      ghost var ahead := s.Ahead();
      var r := s.Next();
      if r.None? {
        assert seen + [] == seen;
        return results, letters, args, s.optind;
      }
      assert seen + ahead.events == (seen + [ahead.events[0]]) + s.Ahead().events;
      seen := seen + [ahead.events[0]];
      results, letters, args := results + [r.value], letters + [s.optopt], args + [s.optarg];
    }
  }
}
