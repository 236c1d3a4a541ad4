/** `getopt_internal` and `getopt_long2` of libcompat/getopt_long.c. */
module GetoptLong {
  import opened PermuteArgs

  /** An entry of argv: a string, or the null pointer that ends the vector. */
  datatype Arg = Null | Text(s: string)

  datatype HasArg = NoArgument | RequiredArgument | OptionalArgument

  /** `flag` identifies the variable a long option sets, if any. */
  datatype LongOption = LongOption(name: string, hasArg: HasArg, flag: FlagRef, val: int)
  datatype FlagRef = NoFlag | Flag(id: nat)

  /** The option string, the long options, and whether POSIXLY_CORRECT is set. */
  datatype Config = Config(options: string, longs: seq<LongOption>, posixlyCorrect: bool) {
    predicate IgnoreFirst() { options != "" && options[0] in "-+" }
    predicate Permute() { !posixlyCorrect && !IgnoreFirst() }
    predicate InOrder() { !posixlyCorrect && options != "" && options[0] == '-' }
    function BadArg(): int {
      if (IgnoreFirst() && At(options, 1) == ':') || At(options, 0) == ':' then ':' as int else '?' as int
    }
  }

  const BADCH := '?' as int
  const INORDER := 1

  /** The character at i, or the terminating NUL. */
  function At(s: string, i: nat): char {
    if i < |s| then s[i] else '\0'
  }

  /** strchr from index i on: the first place of c, or |s|. */
  function Find(s: string, c: char, i: nat): (r: nat)
    requires i <= |s|
    ensures i <= r <= |s| && (r < |s| ==> s[r] == c)
    decreases |s| - i
  {
    if i == |s| || s[i] == c then i else Find(s, c, i + 1)
  }

  // ----- looking up a long option

  datatype LongMatch = NoMatch | Ambiguous | Found(index: nat)

  predicate Identical(a: LongOption, b: LongOption) {
    a.hasArg == b.hasArg && a.flag == b.flag && a.val == b.val
  }

  predicate IsPrefix(a: string, b: string) {
    |a| <= |b| && b[..|a|] == a
  }

  function FirstExact(longs: seq<LongOption>, name: string, i: nat): (r: nat)
    requires i <= |longs|
    ensures i <= r <= |longs|
    ensures forall j :: i <= j < r ==> longs[j].name != name
    ensures r < |longs| ==> longs[r].name == name
    decreases |longs| - i
  {
    if i == |longs| || longs[i].name == name then i else FirstExact(longs, name, i + 1)
  }

  function FirstPrefix(longs: seq<LongOption>, name: string, i: nat): (r: nat)
    requires i <= |longs|
    ensures i <= r <= |longs|
    ensures forall j :: i <= j < r ==> !IsPrefix(name, longs[j].name)
    ensures r < |longs| ==> IsPrefix(name, longs[r].name)
    decreases |longs| - i
  {
    if i == |longs| || IsPrefix(name, longs[i].name) then i else FirstPrefix(longs, name, i + 1)
  }

  /** An exact name wins; otherwise the first abbreviated name, unless another one means something else. */
  function LookUp(longs: seq<LongOption>, name: string): (r: LongMatch)
    ensures r.Found? ==> r.index < |longs| && IsPrefix(name, longs[r.index].name)
  {
    var e, f := FirstExact(longs, name, 0), FirstPrefix(longs, name, 0);
    if e < |longs| then Found(e)
    else if f == |longs| then NoMatch
    else if exists i :: f < i < |longs| && IsPrefix(name, longs[i].name) && !Identical(longs[i], longs[f]) then Ambiguous
    else Found(f)
  }

  method FindLong(longs: seq<LongOption>, name: string) returns (r: LongMatch)
    ensures r == LookUp(longs, name)
  {
    var match_, ambiguous := -1, false;
    var i := 0;
    while i < |longs|
      invariant 0 <= i <= |longs|
      invariant forall j :: 0 <= j < i ==> longs[j].name != name
      invariant -1 <= match_ < i
      invariant match_ == -1 ==> !ambiguous && forall j :: 0 <= j < i ==> !IsPrefix(name, longs[j].name)
      invariant match_ != -1 ==> IsPrefix(name, longs[match_].name)
      invariant match_ != -1 ==> forall j :: 0 <= j < match_ ==> !IsPrefix(name, longs[j].name)
      invariant match_ != -1 ==>
        (ambiguous <==> exists j :: match_ < j < i && IsPrefix(name, longs[j].name) && !Identical(longs[j], longs[match_]))
    {
      if IsPrefix(name, longs[i].name) {
        if |longs[i].name| == |name| {
          return Found(i);
        }
        if match_ == -1 {
          match_ := i;
        } else if !Identical(longs[i], longs[match_]) {
          ambiguous := true;
        }
      }
      i := i + 1;
    }
    if ambiguous { return Ambiguous; }
    return if match_ == -1 then NoMatch else Found(match_);
  }

  // ----- what the scan of an argument vector means

  /** The index behind the elements an option takes, and whether it ends the options. */
  datatype Taken = Taken(next: nat, stop: bool)

  /** The options with their arguments, and the operands, each in order. */
  datatype Split = Split(opts: seq<Arg>, operands: seq<Arg>)

  predicate WellFormed(a: seq<Arg>) {
    |a| > 0 && a[|a| - 1] == Null && forall i :: 0 <= i < |a| - 1 ==> a[i].Text?
  }

  predicate IsOption(a: Arg) {
    a.Text? && |a.s| >= 2 && a.s[0] == '-'
  }

  /** A long option's text that ends in element next - 1. */
  function LongTaken(c: Config, a: seq<Arg>, text: string, next: nat): (t: Taken)
    requires next < |a|
    ensures next <= t.next
  {
    if text == "" then Taken(next, true)
    else
      var eq := Find(text, '=', 0);
      var m := LookUp(c.longs, text[..eq]);
      var more := m.Found? && c.longs[m.index].hasArg == RequiredArgument && eq == |text| && a[next].Text?;
      Taken(if more then next + 1 else next, false)
  }

  /** What the option string says about a letter. */
  datatype Kind = Unknown | LongText | Plain | Argument(optional: bool)

  function KindOf(c: Config, ch: char): Kind {
    var oli := Find(c.options, ch, if c.IgnoreFirst() then 1 else 0);
    if ch == ':' || oli == |c.options| then Unknown
    else if ch == 'W' && At(c.options, oli + 1) == ';' then LongText
    else if At(c.options, oli + 1) != ':' then Plain
    else Argument(At(c.options, oli + 2) == ':')
  }

  /** The rest of a cluster of short options in element i. */
  function ShortTaken(c: Config, a: seq<Arg>, cluster: string, i: nat): (t: Taken)
    requires i + 1 < |a|
    ensures i < t.next
    decreases |cluster|
  {
    if cluster == "" then Taken(i + 1, false)
    else
      match KindOf(c, cluster[0])
      case Unknown => ShortTaken(c, a, cluster[1..], i)
      case Plain => ShortTaken(c, a, cluster[1..], i)
      case LongText => LongTextTaken(c, a, cluster[1..], i)
      case Argument(optional) => ArgumentTaken(a, cluster[1..], optional, i)
  }

  function LongTextTaken(c: Config, a: seq<Arg>, rest: string, i: nat): (t: Taken)
    requires i + 1 < |a|
    ensures i < t.next
  {
    if rest != "" then LongTaken(c, a, rest, i + 1)
    else if i + 2 >= |a| || !a[i + 1].Text? then Taken(i + 1, false)
    else LongTaken(c, a, a[i + 1].s, i + 2)
  }

  function ArgumentTaken(a: seq<Arg>, rest: string, optional: bool, i: nat): (t: Taken)
    requires i + 1 < |a|
    ensures i < t.next
  {
    Taken(if rest != "" || optional || i + 2 >= |a| then i + 1 else i + 2, false)
  }

  function OptionTaken(c: Config, a: seq<Arg>, i: nat): (t: Taken)
    requires i + 1 < |a| && IsOption(a[i])
    ensures i < t.next
  {
    if a[i].s[1] == '-' then LongTaken(c, a, a[i].s[2..], i + 1) else ShortTaken(c, a, a[i].s[1..], i)
  }

  lemma TakenInRange(c: Config, a: seq<Arg>, cluster: string, i: nat)
    requires WellFormed(a) && i + 1 < |a|
    ensures ShortTaken(c, a, cluster, i).next < |a|
    decreases |cluster|
  {}

  /** The split of the elements from i on. */
  function SplitFrom(c: Config, a: seq<Arg>, i: nat): (r: Split)
    requires i < |a|
    decreases |a| - i
  {
    if i == |a| - 1 then Split([], [])
    else if !IsOption(a[i]) then
      var r := SplitFrom(c, a, i + 1);
      Split(r.opts, [a[i]] + r.operands)
    else
      RestAfter(c, a, i, OptionTaken(c, a, i))
  }

  /** Elements i up to t.next belong to an option; what follows is operands if the option says so. */
  function RestAfter(c: Config, a: seq<Arg>, i: nat, t: Taken): (r: Split)
    requires i < |a| && i < t.next
    decreases |a| - i, 0
  {
    if t.next >= |a| then Split(a[i..|a| - 1], [])
    else if t.stop then Split(a[i..t.next], a[t.next..|a| - 1])
    else
      var r := SplitFrom(c, a, t.next);
      Split(a[i..t.next] + r.opts, r.operands)
  }

  /** Where the options from i on end if nothing is permuted: at the first operand, unless operands are arguments of
      option 1; behind the end marker; or at the end of the vector. */
  function OptionsEnd(c: Config, a: seq<Arg>, i: nat): nat
    requires i < |a|
    decreases |a| - i, 0
  {
    if i == |a| - 1 then i
    else if !IsOption(a[i]) then if c.InOrder() then OptionsEnd(c, a, i + 1) else i
    else EndAfter(c, a, OptionTaken(c, a, i))
  }

  function EndAfter(c: Config, a: seq<Arg>, t: Taken): nat
    decreases if t.next < |a| then |a| - t.next else 0, 1
  {
    if t.stop || t.next >= |a| then t.next else OptionsEnd(c, a, t.next)
  }

  /** s is a merge of x and y: both in their own order, nothing lost or added. */
  predicate Merges(s: seq<Arg>, x: seq<Arg>, y: seq<Arg>) {
    if s == [] then x == [] && y == []
    else
      || (x != [] && x[0] == s[0] && Merges(s[1..], x[1..], y))
      || (y != [] && y[0] == s[0] && Merges(s[1..], x, y[1..]))
  }

  lemma {:induction false} MergesMore(p: seq<Arg>, s: seq<Arg>, x: seq<Arg>, y: seq<Arg>)
    requires Merges(s, x, y)
    ensures Merges(p + s, p + x, y)
    decreases |p|
  {
    if p == [] {
      assert p + s == s && p + x == x;
    } else {
      MergesMore(p[1..], s, x, y);
      assert (p + s)[1..] == p[1..] + s && (p + x)[1..] == p[1..] + x;
    }
  }

  lemma {:induction false} MergesAlone(s: seq<Arg>)
    ensures Merges(s, [], s)
  {
    if s != [] { MergesAlone(s[1..]); }
  }

  /** The split keeps every element, and the order within the options and within the operands. */
  lemma {:induction false} SplitMerges(c: Config, a: seq<Arg>, i: nat)
    requires i < |a|
    ensures var r := SplitFrom(c, a, i); Merges(a[i..|a| - 1], r.opts, r.operands)
    decreases |a| - i
  {
    var n, r := |a| - 1, SplitFrom(c, a, i);
    if i < n {
      if !IsOption(a[i]) {
        SplitMerges(c, a, i + 1);
        assert a[i..n][1..] == a[i + 1..n] && r.operands[1..] == SplitFrom(c, a, i + 1).operands;
      } else {
        hide Merges;
        RestMerges(c, a, i, OptionTaken(c, a, i));
      }
    }
  }

  lemma {:induction false} RestMerges(c: Config, a: seq<Arg>, i: nat, t: Taken)
    requires i < |a| && i < t.next
    ensures var r := RestAfter(c, a, i, t); Merges(a[i..|a| - 1], r.opts, r.operands)
    decreases |a| - i, 0
  {
    var n := |a| - 1;
    if t.next >= |a| {
      MergesMore(a[i..n], [], [], []);
      assert a[i..n] + [] == a[i..n];
    } else {
      var rest := if t.stop then Split([], a[t.next..n]) else SplitFrom(c, a, t.next);
      if t.stop { MergesAlone(a[t.next..n]); } else { SplitMerges(c, a, t.next); }
      hide Merges, SplitFrom;
      MergesMore(a[i..t.next], a[t.next..n], rest.opts, rest.operands);
      assert a[i..n] == a[i..t.next] + a[t.next..n];
      assert a[i..t.next] + [] == a[i..t.next];
    }
  }

  /** One more element in front of either part. */
  lemma FrontPermutes(h: Arg, s: seq<Arg>, x: seq<Arg>, y: seq<Arg>)
    requires multiset(s) == multiset(x) + multiset(y)
    ensures multiset([h] + s) == multiset([h] + x) + multiset(y) == multiset(x) + multiset([h] + y)
  {}

  lemma {:induction false} MergePermutes(s: seq<Arg>, x: seq<Arg>, y: seq<Arg>)
    requires Merges(s, x, y)
    ensures multiset(s) == multiset(x) + multiset(y)
  {
    if s != [] {
      assert s == [s[0]] + s[1..];
      if x != [] && x[0] == s[0] && Merges(s[1..], x[1..], y) {
        MergePermutes(s[1..], x[1..], y);
        hide Merges;
        FrontPermutes(s[0], s[1..], x[1..], y);
        assert x == [s[0]] + x[1..];
      } else {
        MergePermutes(s[1..], x, y[1..]);
        hide Merges;
        FrontPermutes(s[0], s[1..], x, y[1..]);
        assert y == [s[0]] + y[1..];
      }
    }
  }

  // ----- what each call reports

  /** What a call does besides: nothing, setting optopt, or choosing a long option. */
  datatype Side = Quiet | Complaint(opt: int) | Chosen(index: nat, flag: FlagRef, val: int)

  /** One option: the value returned, optarg, and the rest. */
  datatype Event = Event(code: int, arg: Arg, side: Side)

  /** optopt, the variables that long options set, and the index of the last long option. */
  datatype Outputs = Outputs(optopt: int, flags: map<nat, int>, longIndex: int)

  function Applied(f: Outputs, s: Side): Outputs {
    match s
    case Quiet => f
    case Complaint(opt) => f.(optopt := opt)
    case Chosen(i, NoFlag, _) => f.(longIndex := i)
    case Chosen(i, Flag(id), v) => f.(flags := f.flags[id := v], longIndex := i)
  }

  /** One call on the vector as the caller passed it: the options end before element `at`, or there is an event and a
      place where the next call goes on. */
  datatype Step = Stop(at: nat) | Step(event: Event, next: nat, cluster: string)

  /** A long option's text that ends in element next - 1. */
  function LongStep(c: Config, a: seq<Arg>, text: string, next: nat): Step
    requires next < |a|
  {
    var eq := Find(text, '=', 0);
    var m := LookUp(c.longs, text[..eq]);
    if text == "" then Stop(next)
    else if !m.Found? then Step(Event(BADCH, Null, Complaint(0)), next, "")
    else
      var o := c.longs[m.index];
      var code := if o.flag.Flag? then 0 else o.val;
      var chosen, complaint := Chosen(m.index, o.flag, o.val), Complaint(if o.flag.NoFlag? then o.val else 0);
      if eq < |text| then
        if o.hasArg == NoArgument then Step(Event(c.BadArg(), Null, complaint), next, "")
        else Step(Event(code, Text(text[eq + 1..]), chosen), next, "")
      else if o.hasArg != RequiredArgument then Step(Event(code, Null, chosen), next, "")
      else if a[next] == Null then Step(Event(c.BadArg(), Null, complaint), next, "")
      else Step(Event(code, a[next], chosen), next + 1, "")
  }

  /** The first letter of what is left of a cluster in element i. */
  function LetterStep(c: Config, a: seq<Arg>, cluster: string, i: nat): Step
    requires cluster != "" && i + 1 < |a|
  {
    var ch, rest := cluster[0], cluster[1..];
    var after := if rest == "" then i + 1 else i;
    match KindOf(c, ch)
    case Unknown => Step(Event(BADCH, Null, Complaint(ch as int)), after, rest)
    case Plain => Step(Event(ch as int, Null, Quiet), after, rest)
    case LongText => LongTextStep(c, a, ch as int, rest, i)
    case Argument(optional) => ArgumentStep(c, a, ch as int, rest, optional, i)
  }

  /** -W: the rest of the cluster, or the next element, is a long option. */
  function LongTextStep(c: Config, a: seq<Arg>, code: int, rest: string, i: nat): Step
    requires i + 1 < |a|
  {
    if rest != "" then LongStep(c, a, rest, i + 1)
    else if i + 2 >= |a| || !a[i + 1].Text? then Step(Event(c.BadArg(), Null, Complaint(code)), i + 1, "")
    else LongStep(c, a, a[i + 1].s, i + 2)
  }

  /** A letter whose argument is the rest of the cluster, optional, or the next element. */
  function ArgumentStep(c: Config, a: seq<Arg>, code: int, rest: string, optional: bool, i: nat): Step
    requires i + 1 < |a|
  {
    if rest != "" then Step(Event(code, Text(rest), Quiet), i + 1, "")
    else if optional then Step(Event(code, Null, Quiet), i + 1, "")
    else if i + 2 >= |a| then Step(Event(c.BadArg(), Null, Complaint(code)), i + 1, "")
    else Step(Event(code, a[i + 1], Quiet), i + 2, "")
  }

  /** Between elements: operands are passed over, reported, or end the options, as the mode says. */
  function ElementStep(c: Config, a: seq<Arg>, i: nat): Step
    requires i < |a|
    decreases |a| - i
  {
    if i == |a| - 1 then Stop(i)
    else if IsOption(a[i]) then
      if a[i].s[1] == '-' then LongStep(c, a, a[i].s[2..], i + 1) else LetterStep(c, a, a[i].s[1..], i)
    else if c.InOrder() then Step(Event(INORDER, a[i], Quiet), i + 1, "")
    else if c.Permute() then ElementStep(c, a, i + 1)
    else Stop(i)
  }

  function OneCall(c: Config, a: seq<Arg>, i: nat, cluster: string): Step
    requires i < |a| && (cluster != "" ==> i + 1 < |a|)
  {
    if cluster == "" then ElementStep(c, a, i) else LetterStep(c, a, cluster, i)
  }

  // ----- the same in terms of characters

  lemma {:induction false} FirstPlace(s: string, i: nat, pre: string, c: char, suf: string)
    requires s == pre + [c] + suf && i <= |pre| && c !in pre[i..]
    ensures Find(s, c, i) == |pre|
    decreases |pre| - i
  {
    assert s[|pre|] == c;
    if i < |pre| {
      assert s[i] == pre[i] == pre[i..][0] && pre[i..][1..] == pre[i + 1..];
      FirstPlace(s, i + 1, pre, c, suf);
    }
  }

  lemma {:induction false} NoPlace(s: string, i: nat, c: char)
    requires i <= |s| && c !in s[i..]
    ensures Find(s, c, i) == |s|
    decreases |s| - i
  {
    if i < |s| {
      assert s[i..][0] == s[i] && s[i..][1..] == s[i + 1..];
      NoPlace(s, i + 1, c);
    }
  }

  /** The option string is a mode character, if there is one, and the letters. */
  predicate Composed(options: string, mode: string, letters: string) {
    && options == mode + letters
    && (mode == "" || mode == "-" || mode == "+")
    && (mode == "" ==> letters == "" || (letters[0] != '-' && letters[0] != '+'))
  }

  /** Without a mode character operands are permuted to the end; "-" reports them as arguments of option 1; "+", or
      POSIXLY_CORRECT, ends the options at the first of them. */
  lemma Modes(c: Config, mode: string, letters: string, a: seq<Arg>, i: nat)
    requires Composed(c.options, mode, letters) && WellFormed(a) && i + 1 < |a|
    requires a[i].s == "" || a[i].s[0] != '-' || a[i].s == "-"
    ensures c.Permute() <==> !c.posixlyCorrect && mode == ""
    ensures ElementStep(c, a, i) ==
            if c.posixlyCorrect || mode == "+" then Stop(i)
            else if mode == "-" then Step(Event(1, a[i], Quiet), i + 1, "")
            else ElementStep(c, a, i + 1)
  {
    assert mode != "" ==> c.options[0] == mode[0];
  }

  /** An element that begins an option, a long option, or is the end marker. */
  lemma OptionElements(c: Config, a: seq<Arg>, i: nat, text: string)
    requires WellFormed(a) && i + 1 < |a|
    ensures a[i].s == "--" ==> ElementStep(c, a, i) == Stop(i + 1)
    ensures a[i].s == "--" + text ==> ElementStep(c, a, i) == LongStep(c, a, text, i + 1)
    ensures a[i].s == "-" + text && text != "" && text[0] != '-' ==> ElementStep(c, a, i) == LetterStep(c, a, text, i)
  {
    hide LongStep, LetterStep;
    if a[i].s == "--" {
      assert "--"[2..] == "" && LongStep(c, a, "", i + 1) == Stop(i + 1) by { EmptyText(c, a, i + 1); }
    }
    if a[i].s == "--" + text { assert a[i].s[2..] == text; }
    if a[i].s == "-" + text { assert a[i].s[1..] == text; }
  }

  lemma EmptyText(c: Config, a: seq<Arg>, next: nat)
    requires next < |a|
    ensures LongStep(c, a, "", next) == Stop(next)
  {}

  /** What a missing argument is reported as: ':' if the letters begin with one, and '?' otherwise. */
  lemma MissingArgument(c: Config, mode: string, letters: string)
    requires Composed(c.options, mode, letters)
    ensures c.BadArg() == if letters != "" && letters[0] == ':' then ':' as int else '?' as int
  {
    assert |mode| < |c.options| ==> c.options[|mode|] == letters[0];
  }

  /** A letter of the option string: without a colon it takes no argument; with one, the rest of the cluster or else the
      next element; with two, only the rest of the cluster. */
  lemma KnownLetter(c: Config, a: seq<Arg>, mode: string, pre: string, ch: char, suf: string, rest: string, i: nat)
    requires Composed(c.options, mode, pre + [ch] + suf) && WellFormed(a) && i + 1 < |a|
    requires ch !in pre && ch != ':' && !(ch == 'W' && suf != "" && suf[0] == ';')
    ensures var s := LetterStep(c, a, [ch] + rest, i);
      if suf == "" || suf[0] != ':' then
        s == Step(Event(ch as int, Null, Quiet), if rest == "" then i + 1 else i, rest)
      else if rest != "" then s == Step(Event(ch as int, Text(rest), Quiet), i + 1, "")
      else if |suf| >= 2 && suf[1] == ':' then s == Step(Event(ch as int, Null, Quiet), i + 1, "")
      else if i + 2 < |a| then s == Step(Event(ch as int, a[i + 1], Quiet), i + 2, "")
      else
        var code := if (pre + [ch])[0] == ':' then ':' as int else '?' as int;
        s == Step(Event(code, Null, Complaint(ch as int)), i + 1, "")
  {
    Placed(c, mode, pre, ch, suf);
    MissingArgument(c, mode, pre + [ch] + suf);
    hide KindOf, Find, Composed;
    assert ([ch] + rest)[1..] == rest && (pre + [ch] + suf)[0] == (pre + [ch])[0];
  }

  /** What the option string says about a letter depends on what follows its first place. */
  lemma Placed(c: Config, mode: string, pre: string, ch: char, suf: string)
    requires Composed(c.options, mode, pre + [ch] + suf) && ch !in pre && ch != ':'
    ensures KindOf(c, ch) ==
            if ch == 'W' && suf != "" && suf[0] == ';' then LongText
            else if suf == "" || suf[0] != ':' then Plain
            else Argument(|suf| >= 2 && suf[1] == ':')
  {
    var letters := pre + [ch] + suf;
    LettersFrom(c, mode, letters);
    Parts(mode, pre, ch, suf);
    hide Composed, Find, KindOf;
    FirstPlace(c.options, |mode|, mode + pre, ch, suf);
    KindAt(c, ch, |mode + pre|);
  }

  lemma KindAt(c: Config, ch: char, oli: nat)
    requires oli == Find(c.options, ch, if c.IgnoreFirst() then 1 else 0) < |c.options| && ch != ':'
    ensures var x, y := At(c.options, oli + 1), At(c.options, oli + 2);
      KindOf(c, ch) == if ch == 'W' && x == ';' then LongText else if x != ':' then Plain else Argument(y == ':')
  {}

  lemma LettersFrom(c: Config, mode: string, letters: string)
    requires Composed(c.options, mode, letters)
    ensures c.options == mode + letters && |mode| == if c.IgnoreFirst() then 1 else 0
  {
    assert mode != "" ==> c.options[0] == mode[0];
    assert mode == "" && letters != "" ==> c.options[0] == letters[0];
  }

  lemma Parts(mode: string, pre: string, ch: char, suf: string)
    ensures var s := mode + (pre + [ch] + suf); var k := |mode + pre|;
      && s == (mode + pre) + [ch] + suf && (mode + pre)[|mode|..] == pre && |s| == k + 1 + |suf|
      && At(s, k + 1) == At(suf, 0) && At(s, k + 2) == At(suf, 1)
  {}

  /** A letter that the option string does not have, or a colon. */
  lemma UnknownLetter(c: Config, a: seq<Arg>, mode: string, letters: string, ch: char, rest: string, i: nat)
    requires Composed(c.options, mode, letters) && i + 1 < |a| && (ch == ':' || ch !in letters)
    ensures LetterStep(c, a, [ch] + rest, i) ==
            Step(Event('?' as int, Null, Complaint(ch as int)), if rest == "" then i + 1 else i, rest)
  {
    LettersFrom(c, mode, letters);
    assert c.options[|mode|..] == letters && ([ch] + rest)[1..] == rest;
    if ch != ':' { NoPlace(c.options, |mode|, ch); }
  }

  /** -W with "W;" in the option string: the rest of the cluster, or the next element, is a long option. */
  lemma LongLetter(c: Config, a: seq<Arg>, mode: string, pre: string, suf: string, rest: string, i: nat)
    requires Composed(c.options, mode, pre + ['W'] + suf) && WellFormed(a) && i + 1 < |a|
    requires 'W' !in pre && suf != "" && suf[0] == ';'
    ensures var s := LetterStep(c, a, ['W'] + rest, i);
      if rest != "" then s == LongStep(c, a, rest, i + 1)
      else if i + 2 < |a| then s == LongStep(c, a, a[i + 1].s, i + 2)
      else
        var code := if (pre + ['W'])[0] == ':' then ':' as int else '?' as int;
        s == Step(Event(code, Null, Complaint('W' as int)), i + 1, "")
  {
    Placed(c, mode, pre, 'W', suf);
    MissingArgument(c, mode, pre + ['W'] + suf);
    hide KindOf, Find, Composed, LongStep;
    assert (['W'] + rest)[1..] == rest && (pre + ['W'] + suf)[0] == (pre + ['W'])[0];
  }

  /** A long option's name and, behind '=', its argument. */
  datatype Spelled = Spelled(name: string, value: Arg)

  predicate Spells(text: string, w: Spelled) {
    '=' !in w.name && text == w.name + if w.value.Text? then "=" + w.value.s else ""
  }

  /** Entry k is meant by a name: it is the first with exactly that name; or no entry has it, k is the first that begins
      with it, and all others that do have the same argument, variable and value. */
  predicate Means(longs: seq<LongOption>, name: string, k: nat) {
    && k < |longs|
    && (if longs[k].name == name then forall j :: 0 <= j < k ==> longs[j].name != name
        else
          && name <= longs[k].name
          && (forall j :: 0 <= j < |longs| ==> longs[j].name != name)
          && (forall j :: 0 <= j < k ==> !(name <= longs[j].name))
          && forall j :: k < j < |longs| && name <= longs[j].name ==>
               longs[j].hasArg == longs[k].hasArg && longs[j].flag == longs[k].flag && longs[j].val == longs[k].val)
  }

  /** The search finds what is meant, and nothing otherwise. */
  lemma LookUpMeans(longs: seq<LongOption>, name: string)
    ensures var m := LookUp(longs, name);
      if m.Found? then Means(longs, name, m.index) else forall k :: !Means(longs, name, k)
    ensures LookUp(longs, name) == NoMatch <==> forall k :: 0 <= k < |longs| ==> !(name <= longs[k].name)
  {}

  lemma MeansOnce(longs: seq<LongOption>, name: string, j: nat, k: nat)
    requires Means(longs, name, j) && Means(longs, name, k)
    ensures j == k
  {}

  lemma SpelledParts(text: string, w: Spelled)
    requires Spells(text, w)
    ensures text[..Find(text, '=', 0)] == w.name
    ensures if w.value.Text? then Find(text, '=', 0) < |text| && text[Find(text, '=', 0) + 1..] == w.value.s
            else Find(text, '=', 0) == |text|
  {
    if w.value.Text? {
      assert text == w.name + ['='] + w.value.s;
      FirstPlace(text, 0, w.name, '=', w.value.s);
    } else {
      assert text == w.name;
      NoPlace(text, 0, '=');
    }
  }

  /** A long option that is meant: its argument is the text behind '=', or else, if it is required, the next element;
      an argument that is missing or not allowed is reported. */
  lemma KnownLong(c: Config, a: seq<Arg>, w: Spelled, k: nat, text: string, next: nat)
    requires WellFormed(a) && next < |a| && text != "" && Spells(text, w) && Means(c.longs, w.name, k)
    ensures var s, o := LongStep(c, a, text, next), c.longs[k];
      var code := if o.flag.NoFlag? then o.val else 0;
      var complaint := Event(c.BadArg(), Null, Complaint(code));
      if w.value.Text? && o.hasArg == NoArgument then s == Step(complaint, next, "")
      else if w.value.Text? || o.hasArg != RequiredArgument then
        s == Step(Event(code, w.value, Chosen(k, o.flag, o.val)), next, "")
      else if next + 1 < |a| then s == Step(Event(code, a[next], Chosen(k, o.flag, o.val)), next + 1, "")
      else s == Step(complaint, next, "")
  {
    SpelledParts(text, w);
    LookUpMeans(c.longs, w.name);
    var m := LookUp(c.longs, w.name);
    if m.Found? { MeansOnce(c.longs, w.name, m.index, k); }
    hide Means, LookUp, Find;
  }

  /** A long option that is not meant: unknown or ambiguous. */
  lemma UnknownLong(c: Config, a: seq<Arg>, w: Spelled, text: string, next: nat)
    requires next < |a| && text != "" && Spells(text, w) && forall k :: !Means(c.longs, w.name, k)
    ensures LongStep(c, a, text, next) == Step(Event('?' as int, Null, Complaint(0)), next, "")
  {
    SpelledParts(text, w);
    LookUpMeans(c.longs, w.name);
    hide Means, LookUp, Find;
  }

  /** A step that gets further: to a later element, or within the same cluster. */
  predicate Forward(s: Step, i: nat, cluster: string, n: nat) {
    s.Step? ==>
      && s.next < n
      && (s.cluster != "" ==> s.next + 1 < n)
      && (i < s.next || (i == s.next && s.cluster != "" && (cluster == "" || |s.cluster| < |cluster|)))
  }

  lemma LongStepAdvances(c: Config, a: seq<Arg>, text: string, next: nat)
    requires WellFormed(a) && next < |a|
    ensures var s := LongStep(c, a, text, next); s.Step? ==> next <= s.next < |a| && s.cluster == ""
  {}

  lemma LetterStepAdvances(c: Config, a: seq<Arg>, cluster: string, i: nat)
    requires WellFormed(a) && i + 1 < |a| && cluster != ""
    ensures Forward(LetterStep(c, a, cluster, i), i, cluster, |a|)
  {
    hide LongStep, WellFormed, KindOf;
    LongStepAdvances(c, a, cluster[1..], i + 1);
    if i + 2 < |a| && a[i + 1].Text? { LongStepAdvances(c, a, a[i + 1].s, i + 2); }
  }

  lemma {:induction false} ElementStepAdvances(c: Config, a: seq<Arg>, i: nat)
    requires WellFormed(a) && i < |a|
    ensures Forward(ElementStep(c, a, i), i, "", |a|)
    decreases |a| - i
  {
    if i < |a| - 1 {
      if IsOption(a[i]) {
        LongStepAdvances(c, a, a[i].s[2..], i + 1);
        LetterStepAdvances(c, a, a[i].s[1..], i);
      } else {
        ElementStepAdvances(c, a, i + 1);
      }
    }
    hide LongStep, LetterStep, WellFormed;
  }

  lemma OneCallAdvances(c: Config, a: seq<Arg>, i: nat, cluster: string)
    requires WellFormed(a) && i < |a| && (cluster != "" ==> i + 1 < |a|)
    ensures Forward(OneCall(c, a, i, cluster), i, cluster, |a|)
  {
    ElementStepAdvances(c, a, i);
    if cluster != "" { LetterStepAdvances(c, a, cluster, i); }
    hide ElementStep, LetterStep, Forward;
  }

  /** Everything a caller's loop is told, from element i and cluster on. */
  function Reports(c: Config, a: seq<Arg>, i: nat, cluster: string): seq<Event>
    requires WellFormed(a) && i < |a| && (cluster != "" ==> i + 1 < |a|)
    decreases |a| - i, cluster == "", |cluster|
  {
    OneCallAdvances(c, a, i, cluster);
    match OneCall(c, a, i, cluster)
    case Stop(_) => []
    case Step(e, next, rest) => [e] + Reports(c, a, next, rest)
  }

  /** What a caller's loop sees of the events, and what they do to the outputs one after the other. */
  function Seen(es: seq<Event>): seq<(int, Arg)> {
    if es == [] then [] else [(es[0].code, es[0].arg)] + Seen(es[1..])
  }

  function AllApplied(f: Outputs, es: seq<Event>): Outputs
    decreases |es|
  {
    if es == [] then f else AllApplied(Applied(f, es[0].side), es[1..])
  }

  predicate Sets(e: Event, id: nat) {
    e.side.Chosen? && e.side.flag == Flag(id)
  }

  /** What no event says stays. */
  lemma {:induction false} Unsaid(f: Outputs, es: seq<Event>, id: nat)
    ensures var r := AllApplied(f, es);
      && ((forall k :: 0 <= k < |es| ==> !es[k].side.Complaint?) ==> r.optopt == f.optopt)
      && ((forall k :: 0 <= k < |es| ==> !es[k].side.Chosen?) ==> r.longIndex == f.longIndex)
      && ((forall k :: 0 <= k < |es| ==> !Sets(es[k], id)) ==>
            (id in r.flags <==> id in f.flags) && (id in r.flags ==> r.flags[id] == f.flags[id]))
    decreases |es|
  {
    if es != [] {
      assert forall k :: 0 <= k < |es[1..]| ==> es[1..][k] == es[k + 1];
      Unsaid(Applied(f, es[0].side), es[1..], id);
    }
  }

  /** After a run optopt is what the last complaint said, the index that of the last long option, and a variable has the
      value of the last long option that sets it. */
  lemma {:induction false} LastSaid(f: Outputs, es: seq<Event>, j: nat, id: nat)
    requires j < |es|
    ensures var r, side := AllApplied(f, es), es[j].side;
      && (side.Complaint? && (forall k :: j < k < |es| ==> !es[k].side.Complaint?) ==> r.optopt == side.opt)
      && (side.Chosen? && (forall k :: j < k < |es| ==> !es[k].side.Chosen?) ==> r.longIndex == side.index)
      && (Sets(es[j], id) && (forall k :: j < k < |es| ==> !Sets(es[k], id)) ==>
            id in r.flags && r.flags[id] == side.val)
    decreases |es|
  {
    var rest := es[1..];
    assert forall k :: 0 <= k < |rest| ==> rest[k] == es[k + 1];
    if j == 0 {
      Unsaid(Applied(f, es[0].side), rest, id);
    } else {
      LastSaid(Applied(f, es[0].side), rest, j - 1, id);
    }
  }

  lemma NextReport(c: Config, a: seq<Arg>, i: nat, cluster: string)
    requires WellFormed(a) && i < |a| && (cluster != "" ==> i + 1 < |a|)
    ensures var s := OneCall(c, a, i, cluster);
      && Forward(s, i, cluster, |a|)
      && Reports(c, a, i, cluster) == if s.Stop? then [] else [s.event] + Reports(c, a, s.next, s.cluster)
  {
    OneCallAdvances(c, a, i, cluster);
  }

  // ----- the state of a scan: what lies behind optind, and what is still to come

  /** The elements behind optind: options around the block [ns, ne) of operands skipped so far; -1 means unset. */
  function Behind(a: seq<Arg>, optind: nat, ns: int, ne: int): (r: Split)
    requires 1 <= optind < |a| && Blocks(optind, ns, ne)
  {
    if ns == -1 then Split(a[1..optind], [])
    else if ne == -1 then Split(a[1..ns], a[ns..optind])
    else Split(a[1..ns] + a[ne..optind], a[ns..ne])
  }

  predicate Blocks(optind: nat, ns: int, ne: int) {
    && (ns == -1 ==> ne == -1)
    && (ns != -1 ==> 1 <= ns < optind)
    && (ne != -1 ==> ns < ne <= optind)
  }

  function Join(a: Split, b: Split): Split {
    Split(a.opts + b.opts, a.operands + b.operands)
  }

  /** Nothing from optind on has moved, and what is behind joined to `rest` is the split of the original vector. */
  ghost predicate Accounts(c: Config, orig: seq<Arg>, a: seq<Arg>, optind: nat, ns: int, ne: int, rest: Split) {
    && WellFormed(orig) && |a| == |orig| && 1 <= optind < |a|
    && Blocks(optind, ns, ne)
    && a[0] == orig[0] && a[optind..] == orig[optind..]
    && Join(Behind(a, optind, ns, ne), rest) == SplitFrom(c, orig, 1)
  }

  /** The skipped block is closed: an option has been found after it. */
  predicate Closed(ns: int, ne: int) {
    ns == -1 || ne != -1
  }

  /** The final vector: program name, options with their arguments, operands, null. */
  ghost predicate Partitioned(c: Config, orig: seq<Arg>, a: seq<Arg>, optind: int) {
    && WellFormed(orig) && |orig| >= 2
    && var r := SplitFrom(c, orig, 1);
       a == [orig[0]] + r.opts + r.operands + [Null] && optind == 1 + |r.opts|
  }

  lemma FramedPermutes(first: Arg, s: seq<Arg>, x: seq<Arg>, y: seq<Arg>, last: Arg)
    requires multiset(s) == multiset(x) + multiset(y)
    ensures multiset([first] + s + [last]) == multiset([first] + x + y + [last])
  {}

  lemma Frames(orig: seq<Arg>)
    requires WellFormed(orig) && |orig| >= 2
    ensures orig == [orig[0]] + orig[1..|orig| - 1] + [Null]
  {}

  /** A partitioned vector is a permutation of the original one: the operands from optind on, the rest before. */
  lemma PartitionedPermutes(c: Config, orig: seq<Arg>, a: seq<Arg>, optind: int)
    requires Partitioned(c, orig, a, optind)
    ensures multiset(a) == multiset(orig)
  {
    hide SplitFrom, Merges, WellFormed;
    var r := SplitFrom(c, orig, 1);
    var body := orig[1..|orig| - 1];
    SplitMerges(c, orig, 1);
    MergePermutes(body, r.opts, r.operands);
    Frames(orig);
    FramedPermutes(orig[0], body, r.opts, r.operands, Null);
  }

  lemma PartitionedMerges(c: Config, orig: seq<Arg>, a: seq<Arg>, optind: int)
    requires Partitioned(c, orig, a, optind)
    ensures 1 <= optind < |a| && Merges(orig[1..|orig| - 1], a[1..optind], a[optind..|a| - 1])
  {
    SplitMerges(c, orig, 1);
    hide SplitFrom, Merges;
    var r := SplitFrom(c, orig, 1);
    assert a[1..optind] == r.opts && a[optind..|a| - 1] == r.operands;
  }

  lemma RotateAccounts(c: Config, orig: seq<Arg>, a: seq<Arg>, b: seq<Arg>, optind: nat, ns: int, ne: int, rest: Split)
    requires Accounts(c, orig, a, optind, ns, ne, rest) && ne != -1
    requires b == Exchanged(a, ns, ne, optind)
    ensures ne < optind ==> Accounts(c, orig, b, optind, optind - (ne - ns), -1, rest)
    ensures b == [orig[0]] + Behind(a, optind, ns, ne).opts + Behind(a, optind, ns, ne).operands + orig[optind..]
    ensures optind - (ne - ns) == 1 + |Behind(a, optind, ns, ne).opts|
  {
    assert a[..ns] == [a[0]] + a[1..ns];
    assert b[..optind] == [a[0]] + (a[1..ns] + a[ne..optind]) + a[ns..ne];
    var k := optind - (ne - ns);
    assert b[1..k] == a[1..ns] + a[ne..optind] && b[k..optind] == a[ns..ne];
    assert b[optind..] == a[optind..];
  }

  lemma SameTail(a: seq<Arg>, orig: seq<Arg>, i: nat, k: nat)
    requires |a| == |orig| && i <= k <= |a| && a[i..] == orig[i..]
    ensures a[i..k] == orig[i..k] && a[k..] == orig[k..]
  {}

  lemma BehindGrows(a: seq<Arg>, optind: nat, ns: int, ne: int, k: nat)
    requires 1 <= optind <= k < |a| && Blocks(optind, ns, ne) && Closed(ns, ne)
    ensures Behind(a, k, ns, ne) == Split(Behind(a, optind, ns, ne).opts + a[optind..k], Behind(a, optind, ns, ne).operands)
  {}

  /** Elements optind up to k are consumed as part of an option. */
  lemma ConsumeOption(c: Config, orig: seq<Arg>, a: seq<Arg>, optind: nat, ns: int, ne: int, rest: Split,
          k: nat, rest': Split)
    requires Accounts(c, orig, a, optind, ns, ne, rest) && Closed(ns, ne) && optind <= k < |a|
    requires rest == Split(orig[optind..k] + rest'.opts, rest'.operands)
    ensures Accounts(c, orig, a, k, ns, ne, rest')
  {
    SameTail(a, orig, optind, k);
    BehindGrows(a, optind, ns, ne, k);
    hide Behind, SplitFrom, WellFormed;
    var b := Behind(a, optind, ns, ne);
    assert b.opts + orig[optind..k] + rest'.opts == b.opts + rest.opts;
  }

  /** Element optind is skipped as an operand. */
  lemma SkipOperand(c: Config, orig: seq<Arg>, a: seq<Arg>, optind: nat, ns: int, rest: Split)
    requires Accounts(c, orig, a, optind, ns, -1, rest)
    requires optind + 1 < |a| && rest == SplitFrom(c, orig, optind) && !IsOption(orig[optind])
    ensures Accounts(c, orig, a, optind + 1, if ns == -1 then optind else ns, -1, SplitFrom(c, orig, optind + 1))
  {
    var rest' := SplitFrom(c, orig, optind + 1);
    assert a[optind] == a[optind..][0] == orig[optind..][0] == orig[optind];
    var b := Behind(a, optind, ns, -1);
    var ns' := if ns == -1 then optind else ns;
    var b' := Behind(a, optind + 1, ns', -1);
    assert a[ns'..optind + 1] == a[ns'..optind] + [a[optind]];
    assert b'.opts == b.opts && b'.operands == b.operands + [orig[optind]];
    assert b'.operands + rest'.operands == b.operands + rest.operands;
    assert a[optind + 1..] == a[optind..][1..] == orig[optind..][1..] == orig[optind + 1..];
  }

  /** Without a block to rotate, the vector already is in its final order. */
  lemma InOrderAccounts(c: Config, orig: seq<Arg>, a: seq<Arg>, optind: nat, ns: int, rest: Split)
    requires Accounts(c, orig, a, optind, ns, -1, rest)
    ensures a == [orig[0]] + Behind(a, optind, ns, -1).opts + Behind(a, optind, ns, -1).operands + orig[optind..]
    ensures (if ns == -1 then optind else ns) == 1 + |Behind(a, optind, ns, -1).opts|
  {
    var end := if ns == -1 then optind else ns;
    assert a == [a[0]] + a[1..end] + a[end..optind] + a[optind..];
  }

  lemma Partition(c: Config, orig: seq<Arg>, b: seq<Arg>, h: Split, optind: nat)
    requires WellFormed(orig) && 1 <= optind < |orig|
    requires Join(h, Split([], orig[optind..|orig| - 1])) == SplitFrom(c, orig, 1)
    requires b == [orig[0]] + h.opts + h.operands + orig[optind..]
    ensures Partitioned(c, orig, b, 1 + |h.opts|)
  {}

  /** The scan ends at optind; everything that follows is operands. */
  lemma FinishScan(c: Config, orig: seq<Arg>, a: seq<Arg>, b: seq<Arg>, optind: nat, ns: int, ne: int, end: int)
    requires optind < |orig| && Accounts(c, orig, a, optind, ns, ne, Split([], orig[optind..|orig| - 1]))
    requires if ne != -1 then b == Exchanged(a, ns, ne, optind) && end == optind - (ne - ns)
             else b == a && end == if ns == -1 then optind else ns
    ensures Partitioned(c, orig, b, end)
  {
    var rest := Split([], orig[optind..|orig| - 1]);
    if ne != -1 {
      RotateAccounts(c, orig, a, b, optind, ns, ne, rest);
    } else {
      InOrderAccounts(c, orig, a, optind, ns, rest);
    }
    Partition(c, orig, b, Behind(a, optind, ns, ne), optind);
  }

  /** Between elements: the scan goes on at element optind. */
  ghost predicate AtElement(c: Config, orig: seq<Arg>, a: seq<Arg>, optind: int, ns: int, ne: int) {
    && WellFormed(orig) && |a| == |orig| && 1 <= optind < |orig|
    && if c.Permute() then
         Accounts(c, orig, a, optind, ns, ne, SplitFrom(c, orig, optind)) && (ne != -1 ==> ne < optind)
       else a == orig && ns == -1 && ne == -1 && OptionsEnd(c, orig, optind) == OptionsEnd(c, orig, 1)
  }

  /** Within an option that takes the elements from optind up to t.next. */
  ghost predicate Within(c: Config, orig: seq<Arg>, a: seq<Arg>, optind: int, ns: int, ne: int, t: Taken) {
    && WellFormed(orig) && |a| == |orig| && 1 <= optind < t.next < |orig|
    && if c.Permute() then
         Accounts(c, orig, a, optind, ns, ne, RestAfter(c, orig, optind, t)) && Closed(ns, ne)
       else a == orig && ns == -1 && ne == -1 && EndAfter(c, orig, t) == OptionsEnd(c, orig, 1)
  }

  /** The result: in permuting mode the partition; otherwise the vector as it was, and optind where its options end. */
  ghost predicate Final(c: Config, orig: seq<Arg>, a: seq<Arg>, optind: int) {
    if c.Permute() then Partitioned(c, orig, a, optind)
    else WellFormed(orig) && |orig| >= 2 && a == orig && optind == OptionsEnd(c, orig, 1)
  }

  lemma ScanStarts(c: Config, orig: seq<Arg>)
    requires WellFormed(orig) && |orig| >= 2
    ensures AtElement(c, orig, orig, 1, -1, -1)
  {}

  lemma WithinDone(c: Config, orig: seq<Arg>, a: seq<Arg>, i: int, ns: int, ne: int, t: Taken)
    requires Within(c, orig, a, i, ns, ne, t) && !t.stop
    ensures AtElement(c, orig, a, t.next, ns, ne)
  {
    if c.Permute() {
      ConsumeOption(c, orig, a, i, ns, ne, RestAfter(c, orig, i, t), t.next, SplitFrom(c, orig, t.next));
    }
  }

  /** Element i is part of an option that goes on in the next element. */
  lemma WithinGoesOn(c: Config, orig: seq<Arg>, a: seq<Arg>, i: int, ns: int, ne: int, t: Taken)
    requires Within(c, orig, a, i, ns, ne, t) && i + 1 < t.next
    ensures Within(c, orig, a, i + 1, ns, ne, t)
  {
    if c.Permute() {
      assert orig[i..t.next] == orig[i..i + 1] + orig[i + 1..t.next];
      var rest' := RestAfter(c, orig, i + 1, t);
      assert orig[i..i + 1] + rest'.opts == RestAfter(c, orig, i, t).opts;
      ConsumeOption(c, orig, a, i, ns, ne, RestAfter(c, orig, i, t), i + 1, rest');
    }
  }

  /** The elements still to come are the original ones. */
  lemma UnmovedAt(c: Config, orig: seq<Arg>, a: seq<Arg>, i: int, ns: int, ne: int)
    requires AtElement(c, orig, a, i, ns, ne)
    ensures 1 <= i < |a| == |orig| && a[i] == orig[i] && WellFormed(orig)
  {}

  lemma UnmovedWithin(c: Config, orig: seq<Arg>, a: seq<Arg>, i: int, ns: int, ne: int, t: Taken, k: nat)
    requires Within(c, orig, a, i, ns, ne, t) && i <= k < |orig|
    ensures 1 <= i < |a| == |orig| && a[k] == orig[k] && WellFormed(orig)
  {}

  lemma OptionOpens(c: Config, orig: seq<Arg>, a: seq<Arg>, i: int, ns: int, ne: int)
    requires AtElement(c, orig, a, i, ns, ne) && i + 1 < |orig| && IsOption(orig[i])
    ensures Within(c, orig, a, i, ns, if ns != -1 && ne == -1 then i else ne, OptionTaken(c, orig, i))
  {
    TakenInRange(c, orig, orig[i].s[1..], i);
    if c.Permute() && ns != -1 && ne == -1 { assert a[1..ns] + a[i..i] == a[1..ns]; }
  }

  /** Skipping an operand, after the earlier block of operands, if closed, has been rotated. */
  lemma Skips(c: Config, orig: seq<Arg>, a: seq<Arg>, b: seq<Arg>, i: int, ns: int, ne: int)
    requires AtElement(c, orig, a, i, ns, ne) && c.Permute() && i + 1 < |orig| && !IsOption(orig[i])
    requires if ne == -1 then b == a else 0 <= ns < ne < i < |a| && b == Exchanged(a, ns, ne, i)
    ensures AtElement(c, orig, b, i + 1, if ns == -1 then i else if ne == -1 then ns else i - (ne - ns), -1)
    ensures ElementStep(c, orig, i) == ElementStep(c, orig, i + 1)
  {
    var rest := SplitFrom(c, orig, i);
    if ne != -1 {
      RotateAccounts(c, orig, a, b, i, ns, ne, rest);
      SkipOperand(c, orig, b, i, i - (ne - ns), rest);
    } else {
      SkipOperand(c, orig, b, i, ns, rest);
    }
  }

  /** An operand where nothing is permuted. */
  lemma PassesOver(c: Config, orig: seq<Arg>, a: seq<Arg>, i: int, ns: int, ne: int)
    requires AtElement(c, orig, a, i, ns, ne) && !c.Permute() && i + 1 < |orig| && !IsOption(orig[i])
    ensures a == orig && ns == -1 && ne == -1
    ensures if c.InOrder() then AtElement(c, orig, a, i + 1, ns, ne) else Final(c, orig, a, i)
  {}

  lemma Ends(c: Config, orig: seq<Arg>, a: seq<Arg>, b: seq<Arg>, i: int, ns: int, ne: int, end: int)
    requires AtElement(c, orig, a, i, ns, ne) && i == |orig| - 1
    requires if ne != -1 then 0 <= ns < ne < i < |a| && b == Exchanged(a, ns, ne, i) && end == i - (ne - ns)
             else b == a && end == if ns == -1 then i else ns
    ensures Final(c, orig, b, end)
  {
    if c.Permute() { FinishScan(c, orig, a, b, i, ns, ne, end); }
  }

  /** The end-of-options marker in element i. */
  lemma Stops(c: Config, orig: seq<Arg>, a: seq<Arg>, b: seq<Arg>, i: int, ns: int, ne: int, end: int)
    requires 0 <= i && Within(c, orig, a, i, ns, ne, Taken(i + 1, true))
    requires if ne != -1 then 0 <= ns < ne < i + 1 < |a| && b == Exchanged(a, ns, ne, i + 1) && end == i + 1 - (ne - ns)
             else b == a && end == i + 1
    ensures Final(c, orig, b, end)
  {
    if c.Permute() {
      ConsumeOption(c, orig, a, i, ns, ne, RestAfter(c, orig, i, Taken(i + 1, true)), i + 1, Split([], orig[i + 1..|orig| - 1]));
      FinishScan(c, orig, a, b, i + 1, ns, ne, end);
    }
  }

  lemma BlockBehind(c: Config, orig: seq<Arg>, a: seq<Arg>, i: int, ns: int, ne: int)
    requires AtElement(c, orig, a, i, ns, ne)
    ensures if ns == -1 then ne == -1 else 0 <= ns && (ne != -1 ==> ns < ne < i)
    ensures !c.Permute() ==> ns == -1 && ne == -1
  {}

  lemma BlockClosed(c: Config, orig: seq<Arg>, a: seq<Arg>, i: int, ns: int, ne: int, t: Taken)
    requires Within(c, orig, a, i, ns, ne, t)
    ensures if ns == -1 then ne == -1 else 0 <= ns < ne <= i
    ensures !c.Permute() ==> ns == -1 && ne == -1
  {}

  // ----- the scanner

  /** -1, -2 and any other result of getopt_internal. */
  datatype Internal = Ended | LongOptionFound | Letter(code: int)

  /** The end of the options, or the value getopt_long2 returns for one of them. */
  datatype Result = Done | Option(code: int)

  class Getopt {
    const c: Config
    var optind: int
    var place: string
    var nonoptStart: int
    var nonoptEnd: int
    var optarg: Arg
    var optopt: int
    var optreset: bool
    var flags: map<nat, int>
    var longIndex: int

    /** The vector as the first call finds it. */
    ghost predicate Fresh(orig: seq<Arg>, a: seq<Arg>)
      reads this
    {
      && WellFormed(orig) && |orig| >= 2 && a == orig
      && 0 <= optind <= 1
      && (optreset || (place == "" && nonoptStart == -1 && nonoptEnd == -1))
    }

    ghost predicate OptionPending(orig: seq<Arg>, a: seq<Arg>, t: Taken)
      reads this
    {
      !optreset && Within(c, orig, a, optind, nonoptStart, nonoptEnd, t)
    }

    /** Between two calls: in the middle of a cluster, or between elements. */
    ghost predicate Scanning(orig: seq<Arg>, a: seq<Arg>)
      reads this
    {
      && !optreset && 1 <= optind < |orig|
      && if place == "" then AtElement(c, orig, a, optind, nonoptStart, nonoptEnd)
         else optind + 1 < |orig| && OptionPending(orig, a, ShortTaken(c, orig, place, optind))
    }

    /** The text of a long option is in `place`. */
    ghost predicate LongPending(orig: seq<Arg>, a: seq<Arg>)
      reads this
    {
      1 <= optind && optind + 1 < |orig| && OptionPending(orig, a, LongTaken(c, orig, place, optind + 1))
    }

    /** After the call that ends the scan. */
    ghost predicate Finished(orig: seq<Arg>, a: seq<Arg>)
      reads this
    {
      nonoptStart == -1 && nonoptEnd == -1 && place == "" && Final(c, orig, a, optind)
    }

    function Effects(): Outputs
      reads `optopt, `flags, `longIndex
    {
      Outputs(optopt, flags, longIndex)
    }

    /** A call that found the outputs f has done what s says. */
    ghost predicate Did(code: int, s: Step, f: Outputs)
      reads this
    {
      && s.Step? && s.event.code == code && s.event.arg == optarg && s.next == optind && s.cluster == place
      && Effects() == Applied(f, s.event.side)
    }

    /** A result of getopt_internal is what s says. */
    ghost predicate Says(orig: seq<Arg>, a: seq<Arg>, r: Internal, s: Step, f: Outputs)
      reads this
    {
      match r
      case Ended => Finished(orig, a) && s.Stop? && (!c.Permute() ==> s.at == optind) && Effects() == f
      case LongOptionFound =>
        LongPending(orig, a) && optarg == Null && s == LongStep(c, orig, place, optind + 1) && Effects() == f
      case Letter(code) => Scanning(orig, a) && Did(code, s, f)
    }

    /** A result of getopt_long2 is what s says. */
    ghost predicate Returns(orig: seq<Arg>, a: seq<Arg>, r: Result, s: Step, f: Outputs)
      reads this
    {
      match r
      case Done => Finished(orig, a) && s.Stop? && (!c.Permute() ==> s.at == optind) && Effects() == f
      case Option(code) => Scanning(orig, a) && Did(code, s, f)
    }

    /** The element and the rest of a cluster a call starts from. */
    function Element(): int
      reads this
    {
      if optind == 0 then 1 else optind
    }

    function Cluster(): string
      reads this
    {
      if optreset then "" else place
    }

    /** Where the first or a later call starts. */
    ghost predicate Ready(orig: seq<Arg>, a: seq<Arg>)
      reads this
    {
      Fresh(orig, a) || Scanning(orig, a)
    }

    constructor (c: Config)
      ensures this.c == c && optind == 1 && place == "" && nonoptStart == -1 && nonoptEnd == -1 && !optreset
    {
      this.c := c;
      optind, place, nonoptStart, nonoptEnd := 1, "", -1, -1;
      optarg, optopt, optreset := Null, '?' as int, false;
      flags, longIndex := map[], 0;
    }

    /** Every call of permute_args finds two nonempty blocks. */
    method PermuteSkipped(nargv: array<Arg>)
      requires 0 <= nonoptStart < nonoptEnd < optind <= nargv.Length
      modifies nargv
      ensures nargv[..] == Exchanged(old(nargv[..]), nonoptStart, nonoptEnd, optind)
    {
      PermuteArgs.PermuteArgs(nonoptStart, nonoptEnd, optind, nargv);
    }

    /** optind has reached the end of the vector. */
    method EndOfVector(nargv: array<Arg>, ghost orig: seq<Arg>)
      requires Scanning(orig, nargv[..]) && place == "" && optind == |orig| - 1
      modifies this`optind, this`nonoptStart, this`nonoptEnd, nargv
      ensures Finished(orig, nargv[..]) && (!c.Permute() ==> optind == old(optind))
    {
      hide AtElement, Within, WellFormed, Exchanged, Final, ShortTaken;
      ghost var a, i, ns, ne := nargv[..], optind, nonoptStart, nonoptEnd;
      UnmovedAt(c, orig, a, i, ns, ne);
      BlockBehind(c, orig, a, i, ns, ne);
      if nonoptEnd != -1 {
        PermuteSkipped(nargv);
        optind := optind - (nonoptEnd - nonoptStart);
      } else if nonoptStart != -1 {
        optind := nonoptStart;
      }
      nonoptStart, nonoptEnd := -1, -1;
      Ends(c, orig, a, nargv[..], i, ns, ne, optind);
    }

    /** The next element is an operand: rotate an earlier block of operands behind the options first. */
    method SkipElement(nargv: array<Arg>, ghost orig: seq<Arg>)
      requires AtElement(c, orig, nargv[..], optind, nonoptStart, nonoptEnd) && c.Permute()
      requires 1 <= optind < nargv.Length - 1 && |orig| == nargv.Length && !IsOption(nargv[optind])
      modifies this`optind, this`nonoptStart, this`nonoptEnd, nargv
      ensures AtElement(c, orig, nargv[..], optind, nonoptStart, nonoptEnd) && optind == old(optind) + 1
      ensures ElementStep(c, orig, old(optind)) == ElementStep(c, orig, optind)
    {
      hide AtElement, Within, WellFormed, ElementStep, Exchanged, IsOption;
      ghost var a, i, ns, ne := nargv[..], optind, nonoptStart, nonoptEnd;
      UnmovedAt(c, orig, a, i, ns, ne);
      BlockBehind(c, orig, a, i, ns, ne);
      var start := nonoptStart;
      if nonoptStart == -1 {
        start := optind;
      } else if nonoptEnd != -1 {
        PermuteSkipped(nargv);
        start := optind - (nonoptEnd - nonoptStart);
      }
      Skips(c, orig, a, nargv[..], i, ns, ne);
      nonoptStart, nonoptEnd, optind := start, -1, optind + 1;
    }

    /** The next element is an option: a cluster of letters, or a long option. */
    method OpenOption(nargv: array<Arg>, ghost orig: seq<Arg>) returns (long: bool)
      requires Scanning(orig, nargv[..]) && place == "" && |orig| == nargv.Length
      requires optind < nargv.Length - 1 && IsOption(nargv[optind])
      modifies this`place, this`nonoptEnd
      ensures long ==> LongPending(orig, nargv[..]) && ElementStep(c, orig, optind) == LongStep(c, orig, place, optind + 1)
      ensures !long ==> Scanning(orig, nargv[..]) && place != ""
      ensures !long ==> ElementStep(c, orig, optind) == LetterStep(c, orig, place, optind)
    {
      hide AtElement, Within, WellFormed, LongTaken, ShortTaken, LetterStep, LongStep;
      UnmovedAt(c, orig, nargv[..], optind, nonoptStart, nonoptEnd);
      OptionOpens(c, orig, nargv[..], optind, nonoptStart, nonoptEnd);
      place := nargv[optind].s;
      if nonoptStart != -1 && nonoptEnd == -1 {
        nonoptEnd := optind;
      }
      place := place[1..];
      if place[0] == '-' {
        place := place[1..];
        return true;
      }
      return false;
    }

    /** An operand when nothing is permuted: the argument of option 1, or the end of the options. */
    method MeetOperand(nargv: array<Arg>, ghost orig: seq<Arg>) returns (r: Internal)
      requires Scanning(orig, nargv[..]) && place == "" && |orig| == nargv.Length
      requires optind < nargv.Length - 1 && !IsOption(nargv[optind]) && !c.Permute()
      modifies this`optind, this`optarg
      ensures r != LongOptionFound && Says(orig, nargv[..], r, ElementStep(c, orig, old(optind)), old(Effects())) && place == ""
    {
      PassesOver(c, orig, nargv[..], optind, nonoptStart, nonoptEnd);
      hide AtElement, Within, WellFormed, ShortTaken, LongTaken, LetterStep, LongStep;
      if c.InOrder() {
        optarg := nargv[optind];
        optind := optind + 1;
        return Letter(INORDER);
      }
      return Ended;
    }

    /** The loop at `start:`: skip operands until an option or the end of the vector is found. */
    method NextOption(nargv: array<Arg>, ghost orig: seq<Arg>) returns (r: Internal, cluster: bool)
      requires Scanning(orig, nargv[..]) && place == "" && optarg == Null
      modifies this`optind, this`place, this`nonoptStart, this`nonoptEnd, this`optarg, nargv
      ensures !cluster ==> Says(orig, nargv[..], r, ElementStep(c, orig, old(optind)), old(Effects()))
      ensures cluster ==> Scanning(orig, nargv[..]) && place != "" && optarg == Null
      ensures cluster ==> ElementStep(c, orig, old(optind)) == LetterStep(c, orig, place, optind)
    {
      hide AtElement, Within, WellFormed, ShortTaken, LongTaken, LetterStep, LongStep, IsOption, Final;
      UnmovedAt(c, orig, nargv[..], optind, nonoptStart, nonoptEnd);
      var nargc := nargv.Length - 1;
      while optind < nargc
        invariant optarg == Null
        invariant Scanning(orig, nargv[..]) && place == ""
        invariant ElementStep(c, orig, old(optind)) == ElementStep(c, orig, optind)
        decreases nargc - optind
      {
        if IsOption(nargv[optind]) {
          var long := OpenOption(nargv, orig);
          return LongOptionFound, !long;
        }
        if !c.Permute() {
          r := MeetOperand(nargv, orig);
          return r, false;
        }
        SkipElement(nargv, orig);
      }
      EndOfVector(nargv, orig);
      return Ended, false;
    }

    /** The option takes the elements up to t.next. */
    method Leave(nargv: array<Arg>, ghost orig: seq<Arg>, ghost t: Taken, next: int)
      requires OptionPending(orig, nargv[..], t) && !t.stop && next == t.next
      modifies this`optind, this`place
      ensures Scanning(orig, nargv[..]) && place == "" && optind == next > old(optind)
    {
      WithinDone(c, orig, nargv[..], optind, nonoptStart, nonoptEnd, t);
      optind, place := next, "";
    }

    /** The letter takes no argument: go on behind the element if it was the cluster's last. */
    method NextLetter(nargv: array<Arg>, ghost orig: seq<Arg>)
      requires 1 <= optind && optind + 1 < |orig| && OptionPending(orig, nargv[..], ShortTaken(c, orig, place, optind))
      modifies this`optind, this`place
      ensures Scanning(orig, nargv[..]) && place == old(place)
      ensures optind == if place == "" then old(optind) + 1 else old(optind)
    {
      if place == "" { Leave(nargv, orig, Taken(optind + 1, false), optind + 1); }
    }

    /** A letter whose argument is the rest of the cluster, optional, or the next element. */
    method TakeArgument(nargv: array<Arg>, ghost orig: seq<Arg>, optchar: char, optional: bool) returns (r: Internal)
      requires 1 <= optind && optind + 1 < |orig| == nargv.Length
      requires OptionPending(orig, nargv[..], ArgumentTaken(orig, place, optional, optind))
      modifies this`optind, this`place, this`optarg, this`optopt
      ensures r.Letter?
      ensures Says(orig, nargv[..], r, ArgumentStep(c, orig, optchar as int, old(place), optional, old(optind)), old(Effects()))
    {
      ghost var t := ArgumentTaken(orig, place, optional, optind);
      optarg := Null;
      if place != "" {
        optarg := Text(place);
      } else if !optional {
        if optind + 1 >= nargv.Length - 1 {
          Leave(nargv, orig, t, optind + 1);
          optopt := optchar as int;
          return Letter(c.BadArg());
        }
        optarg := nargv[optind + 1];
        Leave(nargv, orig, t, optind + 2);
        return Letter(optchar as int);
      }
      Leave(nargv, orig, t, optind + 1);
      return Letter(optchar as int);
    }

    /** -W: the rest of the cluster, or the next element, is a long option. */
    method TakeLongText(nargv: array<Arg>, ghost orig: seq<Arg>, optchar: char) returns (r: Internal)
      requires 1 <= optind && optind + 1 < |orig|
      requires OptionPending(orig, nargv[..], LongTextTaken(c, orig, place, optind))
      requires optarg == Null
      modifies this`optind, this`place, this`optopt
      ensures !r.Ended? && Says(orig, nargv[..], r, LongTextStep(c, orig, optchar as int, old(place), old(optind)), old(Effects()))
    {
      hide AtElement, Within, WellFormed, LongTaken;
      ghost var t := LongTextTaken(c, orig, place, optind);
      UnmovedWithin(c, orig, nargv[..], optind, nonoptStart, nonoptEnd, t, optind + 1);
      if place != "" {
        return LongOptionFound;
      }
      if optind + 1 >= nargv.Length - 1 {
        Leave(nargv, orig, t, optind + 1);
        optopt := optchar as int;
        return Letter(c.BadArg());
      }
      WithinGoesOn(c, orig, nargv[..], optind, nonoptStart, nonoptEnd, t);
      optind := optind + 1;
      place := nargv[optind].s;
      return LongOptionFound;
    }

    /** The part of getopt_internal that takes one letter from a cluster. */
    method TakeLetter(nargv: array<Arg>, ghost orig: seq<Arg>) returns (r: Internal)
      requires Scanning(orig, nargv[..]) && place != "" && optarg == Null
      modifies this`optind, this`place, this`optarg, this`optopt
      ensures !r.Ended? && Says(orig, nargv[..], r, LetterStep(c, orig, old(place), old(optind)), old(Effects()))
    {
      hide LongStep, LongTaken, AtElement, Within, WellFormed;
      hide LongTextTaken, ArgumentTaken, LongTextStep, ArgumentStep, KindOf;
      UnmovedWithin(c, orig, nargv[..], optind, nonoptStart, nonoptEnd, ShortTaken(c, orig, place, optind), optind);
      assert OptionPending(orig, nargv[..], ShortTaken(c, orig, place, optind));
      var optchar := place[0];
      place := place[1..];
      match KindOf(c, optchar) {
        case Unknown =>
          NextLetter(nargv, orig);
          optopt := optchar as int;
          r := Letter(BADCH);
        case LongText =>
          r := TakeLongText(nargv, orig, optchar);
        case Plain =>
          NextLetter(nargv, orig);
          r := Letter(optchar as int);
        case Argument(optional) =>
          r := TakeArgument(nargv, orig, optchar, optional);
      }
    }

    lemma ReadyWithin(orig: seq<Arg>, a: seq<Arg>)
      requires Ready(orig, a)
      ensures WellFormed(orig) && 1 <= Element() < |orig| && (Cluster() != "" ==> Element() + 1 < |orig|)
    {}

    /** The start of a call: 0 and optreset restart the scan; says whether a new element is to be looked at. */
    method Begin(ghost orig: seq<Arg>, ghost a: seq<Arg>) returns (scan: bool)
      requires Ready(orig, a)
      modifies this`optind, this`optarg, this`nonoptStart, this`nonoptEnd, this`optreset, this`place
      ensures Scanning(orig, a) && optarg == Null && scan == (place == "")
      ensures place == old(Cluster()) && optind == old(Element())
    {
      if Fresh(orig, a) { ScanStarts(c, orig); }
      hide AtElement, Within, WellFormed, ShortTaken;
      optarg := Null;
      if optind == 0 {
        optind := 1;
      }
      if optreset {
        nonoptStart, nonoptEnd := -1, -1;
      }
      scan := optreset || place == "";
      if scan {
        optreset, place := false, "";
      }
    }

    method GetoptInternal(nargv: array<Arg>, ghost orig: seq<Arg>) returns (r: Internal)
      requires Ready(orig, nargv[..])
      modifies this, nargv
      ensures Says(orig, nargv[..], r, OneCall(c, orig, old(Element()), old(Cluster())), old(Effects()))
    {
      ReadyWithin(orig, nargv[..]);
      var scan := Begin(orig, nargv[..]);
      hide Scanning, LongPending, Ready, ElementStep, LetterStep, LongStep, WellFormed;
      if scan {
        var cluster;
        r, cluster := NextOption(nargv, orig);
        if !cluster { return; }
      }
      r := TakeLetter(nargv, orig);
    }

    /** The end-of-options marker: rotate the operands skipped so far behind it. */
    method EndMarker(nargv: array<Arg>, ghost orig: seq<Arg>)
      requires LongPending(orig, nargv[..]) && place == ""
      modifies this`optind, this`nonoptStart, this`nonoptEnd, nargv
      ensures Finished(orig, nargv[..]) && (!c.Permute() ==> optind == old(optind) + 1)
    {
      hide AtElement, Within, WellFormed, Exchanged, Final;
      ghost var a, i, ns, ne := nargv[..], optind, nonoptStart, nonoptEnd;
      ghost var t := Taken(i + 1, true);
      UnmovedWithin(c, orig, a, i, ns, ne, t, i);
      BlockClosed(c, orig, a, i, ns, ne, t);
      optind := optind + 1;
      if nonoptEnd != -1 {
        PermuteSkipped(nargv);
        optind := optind - (nonoptEnd - nonoptStart);
      }
      nonoptStart, nonoptEnd := -1, -1;
      Stops(c, orig, a, nargv[..], i, ns, ne, optind);
    }

    /** A long option that is unknown, or whose argument is wrong. */
    method Reject(nargv: array<Arg>, ghost orig: seq<Arg>, ghost t: Taken, opt: int, code: int) returns (r: Result)
      requires OptionPending(orig, nargv[..], t) && !t.stop && t.next == optind + 1
      modifies this`optind, this`place, this`optarg, this`optopt
      ensures r.Option? && optarg == Null
      ensures Returns(orig, nargv[..], r, Step(Event(code, Null, Complaint(opt)), old(optind) + 1, ""), old(Effects()))
    {
      optopt, optarg := opt, Null;
      Leave(nargv, orig, t, optind + 1);
      r := Option(code);
    }

    /** A long option that is found, with its argument. */
    method Accept(nargv: array<Arg>, ghost orig: seq<Arg>, ghost t: Taken, index: nat, arg: Arg, next: int)
      returns (r: Result)
      requires OptionPending(orig, nargv[..], t) && !t.stop && next == t.next && index < |c.longs|
      modifies this`optind, this`place, this`optarg, this`flags, this`longIndex
      ensures r.Option?
      ensures var o := c.longs[index];
        Returns(orig, nargv[..], r,
                Step(Event(if o.flag.Flag? then 0 else o.val, arg, Chosen(index, o.flag, o.val)), t.next, ""), old(Effects()))
    {
      optarg := arg;
      Leave(nargv, orig, t, next);
      longIndex := index;
      var o := c.longs[index];
      if o.flag.Flag? {
        flags := flags[o.flag.id := o.val];
        return Option(0);
      }
      return Option(o.val);
    }

    /** The text in `place` is matched against the long options. */
    method TakeLong(nargv: array<Arg>, ghost orig: seq<Arg>) returns (r: Result)
      requires LongPending(orig, nargv[..]) && place != "" && optarg == Null
      modifies this`optind, this`place, this`optarg, this`optopt, this`flags, this`longIndex
      ensures r.Option?
      ensures Returns(orig, nargv[..], r, LongStep(c, orig, old(place), old(optind) + 1), old(Effects()))
    {
      hide AtElement, Within, WellFormed, Returns;
      ghost var t := LongTaken(c, orig, place, optind + 1);
      UnmovedWithin(c, orig, nargv[..], optind, nonoptStart, nonoptEnd, t, optind + 1);
      var currentArgv := place;
      var eq := Find(currentArgv, '=', 0);
      var m := FindLong(c.longs, currentArgv[..eq]);
      if !m.Found? {
        r := Reject(nargv, orig, t, 0, BADCH);
        return;
      }
      var o := c.longs[m.index];
      var opt := if o.flag.NoFlag? then o.val else 0;
      if o.hasArg == NoArgument && eq < |currentArgv| {
        r := Reject(nargv, orig, t, opt, c.BadArg());
      } else if eq < |currentArgv| {
        r := Accept(nargv, orig, t, m.index, Text(currentArgv[eq + 1..]), optind + 1);
      } else if o.hasArg != RequiredArgument {
        r := Accept(nargv, orig, t, m.index, Null, optind + 1);
      } else if nargv[optind + 1] == Null {
        r := Reject(nargv, orig, t, opt, c.BadArg());
      } else {
        r := Accept(nargv, orig, t, m.index, nargv[optind + 1], optind + 2);
      }
    }

    /** One call. */
    method GetoptLong2(nargv: array<Arg>, ghost orig: seq<Arg>) returns (r: Result)
      requires Ready(orig, nargv[..])
      modifies this, nargv
      ensures Returns(orig, nargv[..], r, OneCall(c, orig, old(Element()), old(Cluster())), old(Effects()))
    {
      ReadyWithin(orig, nargv[..]);
      var retval := GetoptInternal(nargv, orig);
      match retval {
        case Ended => return Done;
        case Letter(code) => return Option(code);
        case LongOptionFound =>
          if place == "" {
            EndMarker(nargv, orig);
            return Done;
          }
          r := TakeLong(nargv, orig);
      }
    }

    /** What later calls will report. */
    ghost predicate Remaining(orig: seq<Arg>, rest: seq<Event>)
      requires WellFormed(orig)
      reads this
    {
      && 1 <= Element() < |orig| && (Cluster() != "" ==> Element() + 1 < |orig|)
      && rest == Reports(c, orig, Element(), Cluster())
    }

    /** A caller's loop. Permuting the vector during the scan does not change what is reported: it is what the
        original vector says. The vector ends up partitioned in permuting mode; in the others it is unchanged, and
        optind is where its options end. */
    method ScanAll(nargv: array<Arg>) returns (results: seq<(int, Arg)>)
      requires Fresh(nargv[..], nargv[..])
      modifies this, nargv
      ensures Finished(old(nargv[..]), nargv[..])
      ensures var all := Reports(c, old(nargv[..]), 1, "");
        results == Seen(all) && Effects() == AllApplied(old(Effects()), all)
    {
      ghost var orig := nargv[..];
      ghost var all := Reports(c, orig, 1, "");
      ghost var rest := all;
      hide ElementStep, LetterStep, WellFormed, ShortTaken, LongTaken, AtElement, Within;
      hide OneCall, Final, OptionPending, Reports, Applied;
      results := [];
      var done := false;
      while !done
        invariant results + Seen(rest) == Seen(all) && AllApplied(Effects(), rest) == AllApplied(old(Effects()), all)
        invariant if done then Finished(orig, nargv[..]) && rest == [] else Ready(orig, nargv[..])
        invariant !done ==> WellFormed(orig) && Remaining(orig, rest)
        decreases |rest|, !done
      {
        NextReport(c, orig, Element(), Cluster());
        var r := GetoptLong2(nargv, orig);
        if r.Done? {
          done := true;
        } else {
          results, rest := results + [(r.code, optarg)], rest[1..];
        }
      }
    }
  }
}
