/**
 * Topic filter matching: the character scanner of
 * backends/common/ove_mqtt_topic.c against the level-by-level rules of
 * section 4.7 of MQTT 3.1.1.
 */
module MqttTopic {

  // ----------------------------------------------------------------- the scanner

  /** `is_multilevel_wildcard` on the rest of a filter; start says whether a level begins here. */
  predicate IsMultilevel(f: string, start: bool) { f == "#" && start }

  /** The topic after the current level: everything from the next '/' on. */
  function SkipLevel(t: string): (r: string)
    ensures |r| <= |t|
  {
    if t == "" || t[0] == '/' then t else SkipLevel(t[1..])
  }

  /** What is decided once the filter or the topic has run out. */
  predicate AtEnd(f: string, t: string, start: bool)
  {
    if f == "" && t == "" then true
    else if |f| > 1 && f[0] == '/' && f[1] == '#' then t == ""
    else IsMultilevel(f, start)
  }

  /** The scan of filter rest f over topic rest t. */
  predicate Scan(f: string, t: string, start: bool)
    decreases |f|
  {
    if f == "" || t == "" then AtEnd(f, t, start)
    else if IsMultilevel(f, start) then true
    else if f[0] == '+' then Scan(f[1..], SkipLevel(t), false)
    else if f[0] != t[0] then false
    else Scan(f[1..], t[1..], f[0] == '/')
  }

  /** `ove_mqtt_topic_matches` */
  method Matches(filter: string, topic: string) returns (r: bool)
    ensures r == Scan(filter, topic, true)
  {
    var fi, ti := 0, 0;
    while fi < |filter| && ti < |topic|
      invariant fi <= |filter| && ti <= |topic|
      invariant Scan(filter, topic, true) == Scan(filter[fi..], topic[ti..], fi == 0 || filter[fi - 1] == '/')
    {
      var f, t := filter[fi..], topic[ti..];
      assert f[1..] == filter[fi + 1..] && f[0] == filter[fi] && t[0] == topic[ti];
      if filter[fi] == '#' && fi + 1 == |filter| && (fi == 0 || filter[fi - 1] == '/') {
        assert f == "#";
        return true;
      }
      if filter[fi] == '+' {
        while ti < |topic| && topic[ti] != '/'
          invariant ti <= |topic|
          invariant SkipLevel(topic[ti..]) == SkipLevel(t)
        {
          assert topic[ti..][1..] == topic[ti + 1..];
          ti := ti + 1;
        }
        fi := fi + 1;
        continue;
      }
      if filter[fi] != topic[ti] { return false; }
      assert t[1..] == topic[ti + 1..];
      fi := fi + 1;
      ti := ti + 1;
    }
    if fi == |filter| && ti == |topic| { return true; }
    if fi + 1 < |filter| && filter[fi] == '/' && filter[fi + 1] == '#' { return ti == |topic|; }
    if fi < |filter| && filter[fi] == '#' && fi + 1 == |filter| && (fi == 0 || filter[fi - 1] == '/') {
      assert filter[fi..] == "#";
      return true;
    }
    assert fi < |filter| ==> filter[fi..] != "#" || !(fi == 0 || filter[fi - 1] == '/');
    r := false;
  }

  /** `mqtt_any_sub_matches`: with no filter stored every topic is accepted. */
  method AnyMatches(filters: seq<string>, topic: string) returns (r: bool)
    ensures r <==> filters == [] || exists i :: 0 <= i < |filters| && Scan(filters[i], topic, true)
  {
    if |filters| == 0 { return true; }
    for i := 0 to |filters|
      invariant forall k :: 0 <= k < i ==> !Scan(filters[k], topic, true)
    {
      var m := Matches(filters[i], topic);
      if m { return true; }
    }
    r := false;
  }

  // ------------------------------------------------------------------ the standard

  predicate NoSlash(s: string) { forall i :: 0 <= i < |s| ==> s[i] != '/' }

  /** The level before the first '/', and what follows it. */
  function Head(s: string): (h: string)
    ensures |h| <= |s| && NoSlash(h) && s[..|h|] == h
    ensures |h| < |s| ==> s[|h|] == '/'
  {
    if s == "" || s[0] == '/' then "" else [s[0]] + Head(s[1..])
  }

  /** The levels of a filter or topic. */
  function Split(s: string): (levels: seq<string>)
    ensures |levels| > 0
    decreases |s|
  {
    var h := Head(s);
    if |h| == |s| then [s] else [h] + Split(s[|h| + 1..])
  }

  /** A filter level matches a topic level; '#' matches its parent level and everything below. */
  predicate LevelMatch(fl: seq<string>, tl: seq<string>)
  {
    if fl == [] then tl == []
    else if fl == ["#"] then true
    else tl != [] && (fl[0] == "+" || fl[0] == tl[0]) && LevelMatch(fl[1..], tl[1..])
  }

  predicate StartsWild(f: string) { f != "" && (f[0] == '+' || f[0] == '#') }

  /** Section 4.7.2: a filter that begins with a wildcard matches no topic that begins with '$'. */
  predicate Standard(f: string, t: string)
  {
    LevelMatch(Split(f), Split(t)) && !(StartsWild(f) && t != "" && t[0] == '$')
  }

  predicate Plain(s: string) { '+' !in s && '#' !in s }

  /** '+' stands alone in its level; '#' stands alone and last. */
  predicate WellFormed(fl: seq<string>)
  {
    forall i :: 0 <= i < |fl| ==> Plain(fl[i]) || fl[i] == "+" || (fl[i] == "#" && i == |fl| - 1)
  }

  /** The topic ends in an empty level and the filter has '+' at that level. */
  predicate PlusOnEmptyEnd(fl: seq<string>, tl: seq<string>)
  {
    0 < |tl| <= |fl| && tl[|tl| - 1] == "" && fl[|tl| - 1] == "+"
  }

  // -------------------------------------------------------------------- one level

  /** The rest of a filter or topic after its first level: nothing, or '/' and the other levels. */
  function Tail(s: string): string { s[|Head(s)|..] }

  lemma SkipLevelIsTail(t: string)
    ensures SkipLevel(t) == Tail(t)
  {
    if t != "" && t[0] != '/' {
      SkipLevelIsTail(t[1..]);
      assert t[1..][|Head(t[1..])|..] == t[|Head(t)|..];
    }
  }

  /** A plain filter level is passed over exactly when it is the topic's level. */
  lemma {:induction false} ScanPlainLevel(f: string, t: string, start: bool)
    requires Plain(Head(f))
    ensures Scan(f, t, start) <==> Head(f) == Head(t) && Scan(Tail(f), Tail(t), start && Head(f) == "")
    decreases |f|
  {
    var h, ht := Head(f), Head(t);
    if h == "" {
      assert Tail(f) == f;
      if ht == "" {
        assert Tail(t) == t;
      } else {
        assert t[0] != '/' by { assert ht[0] == t[0]; }
        if f != "" { assert f[0] == '/'; }
      }
    } else {
      assert f[0] == h[0];
      assert f[0] in h;
      assert Head(f) == [f[0]] + Head(f[1..]);
      assert Plain(Head(f[1..])) by {
        assert forall c :: c in Head(f[1..]) ==> c in h;
      }
      if t == "" {
        assert !Scan(f, t, start);
      } else if f[0] != t[0] {
        assert ht != "" ==> ht[0] == t[0];
      } else {
        ScanPlainLevel(f[1..], t[1..], false);
        assert Head(t) == [t[0]] + Head(t[1..]);
        assert Tail(f) == Tail(f[1..]) && Tail(t) == Tail(t[1..]);
        assert h == ht <==> Head(f[1..]) == Head(t[1..]);
      }
    }
  }

  /** A '+' level is passed over exactly when some topic character is left. */
  lemma ScanPlusLevel(f: string, t: string, start: bool)
    requires Head(f) == "+"
    ensures Scan(f, t, start) <==> t != "" && Scan(Tail(f), Tail(t), false)
  {
    assert f[0] == Head(f)[0] == '+';
    assert Tail(f) == f[1..];
    SkipLevelIsTail(t);
  }

  /** Between levels: both end, or only '/#' is left of the filter, or both go on. */
  lemma ScanBetween(f: string, t: string)
    requires Head(f) == "" && Head(t) == ""
    requires f != "" && f[1..] != "" && f[1] == '#' ==> f == "/#"
    ensures Scan(f, t, false) <==>
      (f == "" && t == "") || (f == "/#" && t == "") || (f != "" && t != "" && Scan(f[1..], t[1..], true))
  {
  }

  // ------------------------------------------------------------------ all levels

  lemma SplitStep(s: string)
    ensures Tail(s) == "" ==> Head(s) == s && Split(s) == [s]
    ensures Tail(s) != "" ==> Tail(s)[0] == '/' && Split(s) == [Head(s)] + Split(Tail(s)[1..])
    ensures Tail(s) != "" ==> |Tail(s)[1..]| < |s|
  {
    if Tail(s) == "" {
      assert s == s[..|Head(s)|] + Tail(s);
    } else {
      assert Tail(s)[1..] == s[|Head(s)| + 1..];
    }
  }

  lemma TailHead(s: string)
    ensures Head(Tail(s)) == ""
  {
  }

  /** The end condition moves with the levels. */
  lemma PlusOnEmptyEndStep(a: string, fl: seq<string>, b: string, tl: seq<string>)
    requires |tl| > 0
    ensures PlusOnEmptyEnd([a] + fl, [b] + tl) <==> PlusOnEmptyEnd(fl, tl)
  {
  }

  lemma LevelMatchStep(a: string, fl: seq<string>, b: string, tl: seq<string>)
    requires [a] + fl != ["#"]
    ensures LevelMatch([a] + fl, [b] + tl) <==> (a == "+" || a == b) && LevelMatch(fl, tl)
  {
    assert ([a] + fl)[1..] == fl && ([b] + tl)[1..] == tl;
  }

  lemma LevelMatchNone(fl: seq<string>)
    requires |fl| > 0
    ensures LevelMatch(fl, []) <==> fl == ["#"]
  {
  }

  lemma WellFormedRest(a: string, fl: seq<string>)
    requires WellFormed([a] + fl) && |fl| > 0
    ensures WellFormed(fl) && (Plain(a) || a == "+")
  {
    assert ([a] + fl)[0] == a;
    forall i | 0 <= i < |fl| ensures Plain(fl[i]) || fl[i] == "+" || (fl[i] == "#" && i == |fl| - 1) {
      assert ([a] + fl)[i + 1] == fl[i];
    }
  }

  /** A well-formed filter that goes on with '#' is just '#'. */
  lemma HashIsLast(f: string)
    requires WellFormed(Split(f)) && f != "" && f[0] == '#'
    ensures f == "#"
  {
    SplitStep(f);
    assert Head(f)[0] == '#';
    assert '#' in Head(f);
    assert Split(f)[0] == Head(f);
  }

  /** First levels settled: what remains decides. */
  ghost predicate RestDecides(f: string, t: string)
  {
    var f2, t2 := Tail(f), Tail(t);
    (f2 == "" && t2 == "") || (f2 == "/#" && t2 == "") || (f2 != "" && t2 != "" && Scan(f2[1..], t2[1..], true))
  }

  lemma ScanRest(f: string, t: string)
    requires WellFormed(Split(f))
    ensures Scan(Tail(f), Tail(t), false) <==> RestDecides(f, t)
  {
    SplitStep(f);
    TailHead(f);
    TailHead(t);
    var f2 := Tail(f);
    if f2 != "" && f2[1..] != "" && f2[1] == '#' {
      WellFormedRest(Head(f), Split(f2[1..]));
      HashIsLast(f2[1..]);
      assert f2 == ['/'] + f2[1..];
    }
    ScanBetween(f2, Tail(t));
  }

  lemma StartIrrelevant(f: string, t: string, start: bool)
    requires Head(f) == "" && (f == "" || f[0] == '/')
    ensures Scan(f, t, start) == Scan(f, t, false)
  {
  }

  /**
   * The scan of a well-formed filter is the level-by-level match of the standard,
   * except that '+' does not match an empty last level. All topics are covered.
   */
  lemma {:induction false} ScanIsLevelMatch(f: string, t: string)
    requires WellFormed(Split(f))
    ensures Scan(f, t, true) <==> LevelMatch(Split(f), Split(t)) && !PlusOnEmptyEnd(Split(f), Split(t))
    decreases |f|
  {
    hide Scan, LevelMatch, PlusOnEmptyEnd, WellFormed;
    SplitStep(f);
    SplitStep(t);
    if f == "#" {
      HashAlone(t);
    } else {
      FirstLevelKind(f);
      ScanRest(f, t);
      if Head(f) == "+" {
        ScanPlusLevel(f, t, true);
      } else {
        ScanPlainLevel(f, t, true);
        TailHead(f);
        TailStart(f);
        StartIrrelevant(Tail(f), Tail(t), Head(f) == "");
      }
      if Tail(f) == "" {
        LastFilterLevel(f, t);
      } else if Tail(t) == "" {
        LastTopicLevel(f, t);
      } else {
        WellFormedRest(Head(f), Split(Tail(f)[1..]));
        ScanIsLevelMatch(Tail(f)[1..], Tail(t)[1..]);
        PlusOnEmptyEndStep(Head(f), Split(Tail(f)[1..]), Head(t), Split(Tail(t)[1..]));
        LevelMatchStep(Head(f), Split(Tail(f)[1..]), Head(t), Split(Tail(t)[1..]));
        assert t != "";
      }
    }
  }

  lemma TailStart(f: string)
    ensures Tail(f) == "" || Tail(f)[0] == '/'
  {
  }

  lemma HashAlone(t: string)
    ensures Scan("#", t, true) && LevelMatch(Split("#"), Split(t)) && !PlusOnEmptyEnd(Split("#"), Split(t))
  {
    assert Head("#") == "#" by {
      assert "#"[1..] == "";
    }
    assert Split("#") == ["#"];
  }

  lemma FirstLevelKind(f: string)
    requires WellFormed(Split(f)) && f != "#"
    ensures Head(f) == "+" || Plain(Head(f))
  {
    SplitStep(f);
    if Tail(f) != "" {
      WellFormedRest(Head(f), Split(Tail(f)[1..]));
    } else {
      assert Split(f)[0] == f;
    }
  }

  /** The filter has one level left. */
  lemma LastFilterLevel(f: string, t: string)
    requires Tail(f) == "" && f != "#" && Split(f) == [f] && Head(f) == f
    requires Tail(t) == "" ==> Head(t) == t && Split(t) == [t]
    requires Tail(t) != "" ==> Tail(t)[0] == '/' && Split(t) == [Head(t)] + Split(Tail(t)[1..])
    ensures LevelMatch(Split(f), Split(t)) <==> (f == "+" || f == Head(t)) && Tail(t) == ""
    ensures PlusOnEmptyEnd(Split(f), Split(t)) <==> f == "+" && t == ""
  {
    var tl := Split(t);
    assert [f] == [f] + [];
    assert tl == [tl[0]] + tl[1..];
    LevelMatchStep(f, [], tl[0], tl[1..]);
    if Tail(t) == "" {
      assert tl[1..] == [];
    } else {
      assert tl[1..] == Split(Tail(t)[1..]);
    }
  }

  /** The topic has one level left and the filter more. */
  lemma LastTopicLevel(f: string, t: string)
    requires Tail(f) != "" && Tail(f)[0] == '/' && Split(f) == [Head(f)] + Split(Tail(f)[1..]) && f != "#"
    requires Tail(t) == "" && Head(t) == t && Split(t) == [t]
    ensures LevelMatch(Split(f), Split(t)) <==> (Head(f) == "+" || Head(f) == t) && Tail(f) == "/#"
    ensures PlusOnEmptyEnd(Split(f), Split(t)) <==> Head(f) == "+" && t == ""
  {
    var rest := Split(Tail(f)[1..]);
    assert [t] == [t] + [];
    LevelMatchStep(Head(f), rest, t, []);
    LevelMatchNone(rest);
    assert Tail(f) == ['/'] + Tail(f)[1..];
    SplitStep(Tail(f)[1..]);
    HashAlone("");
    assert Tail(f) == "/#" <==> Tail(f)[1..] == "#";
  }

  // --------------------------------------------------- exactly where they differ

  function Last(fl: seq<string>): string
    requires |fl| > 0
  {
    fl[|fl| - 1]
  }

  /** The last level before any '#' is '+'. */
  predicate EndsInPlus(fl: seq<string>)
  {
    |fl| > 0 && (Last(fl) == "+" || (|fl| > 1 && Last(fl) == "#" && fl[|fl| - 2] == "+"))
  }

  /** A match uses up all filter levels but a final '#'. */
  lemma {:induction false} MatchLengths(fl: seq<string>, tl: seq<string>)
    requires LevelMatch(fl, tl)
    ensures |fl| == |tl| || (|fl| > 0 && Last(fl) == "#" && |fl| <= |tl| + 1)
  {
    if fl == [] || fl == ["#"] {
    } else {
      MatchLengths(fl[1..], tl[1..]);
    }
  }

  lemma DifferOnlyAtPlusEnd(fl: seq<string>, tl: seq<string>)
    requires LevelMatch(fl, tl) && PlusOnEmptyEnd(fl, tl)
    ensures EndsInPlus(fl)
  {
    MatchLengths(fl, tl);
  }

  /** Levels put back together. */
  function Join(levels: seq<string>): string
    requires |levels| > 0
  {
    if |levels| == 1 then levels[0] else levels[0] + "/" + Join(levels[1..])
  }

  lemma HeadOf(h: string, rest: string)
    requires NoSlash(h) && (rest == "" || rest[0] == '/')
    ensures Head(h + rest) == h
  {
    if h == "" {
      assert h + rest == rest;
    } else {
      assert (h + rest)[0] == h[0] && (h + rest)[1..] == h[1..] + rest;
      HeadOf(h[1..], rest);
    }
  }

  lemma {:induction false} SplitJoin(levels: seq<string>)
    requires |levels| > 0 && forall i :: 0 <= i < |levels| ==> NoSlash(levels[i])
    ensures Split(Join(levels)) == levels
  {
    var s := Join(levels);
    if |levels| == 1 {
      HeadOf(levels[0], "");
      assert levels[0] + "" == levels[0];
      SplitStep(s);
    } else {
      var rest := "/" + Join(levels[1..]);
      assert s == levels[0] + rest;
      HeadOf(levels[0], rest);
      assert Tail(s) == rest && rest[1..] == Join(levels[1..]);
      SplitStep(s);
      SplitJoin(levels[1..]);
    }
  }

  lemma {:induction false} SplitHasNoSlash(s: string)
    ensures forall i :: 0 <= i < |Split(s)| ==> NoSlash(Split(s)[i])
    decreases |s|
  {
    SplitStep(s);
    if Tail(s) == "" {
    } else {
      SplitHasNoSlash(Tail(s)[1..]);
    }
  }

  /** A topic for a filter that ends in '+': its plain levels, a letter for each '+', and an empty end. */
  function Witness(fl: seq<string>): seq<string>
    requires |fl| > 0
  {
    if |fl| == 1 || (|fl| == 2 && fl[1] == "#") then [""]
    else [if fl[0] == "+" then "x" else fl[0]] + Witness(fl[1..])
  }

  lemma {:induction false} WitnessWorks(fl: seq<string>)
    requires WellFormed(fl) && EndsInPlus(fl) && forall i :: 0 <= i < |fl| ==> NoSlash(fl[i])
    ensures LevelMatch(fl, Witness(fl)) && PlusOnEmptyEnd(fl, Witness(fl))
    ensures forall i :: 0 <= i < |Witness(fl)| ==> NoSlash(Witness(fl)[i])
  {
    if |fl| == 1 {
      assert fl == ["+"] + [] && Witness(fl) == [""] + [];
      LevelMatchStep("+", [], "", []);
    } else if |fl| == 2 && fl[1] == "#" {
      assert fl == ["+"] + ["#"] && Witness(fl) == [""] + [];
      LevelMatchStep("+", ["#"], "", []);
    } else {
      assert fl == [fl[0]] + fl[1..];
      WellFormedRest(fl[0], fl[1..]);
      WitnessWorks(fl[1..]);
      var x := if fl[0] == "+" then "x" else fl[0];
      LevelMatchStep(fl[0], fl[1..], x, Witness(fl[1..]));
      PlusOnEmptyEndStep(fl[0], fl[1..], x, Witness(fl[1..]));
    }
  }

  /** A topic that begins with '$' for a filter that begins with '+': "$" for each '+', nothing for '#'. */
  function Dollars(fl: seq<string>): (tl: seq<string>)
    ensures fl != [] && fl[0] == "+" ==> tl != [] && tl[0] == "$"
  {
    if fl == [] || fl == ["#"] then [] else [if fl[0] == "+" then "$" else fl[0]] + Dollars(fl[1..])
  }

  lemma {:induction false} DollarsMatch(fl: seq<string>)
    requires WellFormed(fl) && forall i :: 0 <= i < |fl| ==> NoSlash(fl[i])
    ensures LevelMatch(fl, Dollars(fl)) && forall i :: 0 <= i < |Dollars(fl)| ==> NoSlash(Dollars(fl)[i])
    ensures |Dollars(fl)| <= |fl|
    ensures forall i :: 0 <= i < |Dollars(fl)| && fl[i] == "+" ==> Dollars(fl)[i] == "$"
  {
    if fl == [] || fl == ["#"] {
    } else {
      assert fl == [fl[0]] + fl[1..];
      if |fl| > 1 { WellFormedRest(fl[0], fl[1..]); }
      DollarsMatch(fl[1..]);
      var x := if fl[0] == "+" then "$" else fl[0];
      LevelMatchStep(fl[0], fl[1..], x, Dollars(fl[1..]));
      assert Dollars(fl) == [x] + Dollars(fl[1..]);
      forall i | 0 <= i < |Dollars(fl)| && fl[i] == "+" ensures Dollars(fl)[i] == "$" {
        if i > 0 { assert fl[1..][i - 1] == "+"; }
      }
    }
  }

  /** The first character of the first level is the first character. */
  lemma JoinStart(levels: seq<string>)
    requires |levels| > 0
    ensures levels[0] != "" ==> Join(levels) != "" && Join(levels)[0] == levels[0][0]
    ensures |levels| > 1 ==> Join(levels) != ""
  {
  }

  /** A filter that begins with a wildcard is matched against some topic of the '$' kind. */
  lemma WildMatchesDollar(f: string) returns (t: string)
    requires WellFormed(Split(f)) && StartsWild(f)
    ensures t != "" && t[0] == '$' && Scan(f, t, true)
  {
    hide Scan, LevelMatch, WellFormed, PlusOnEmptyEnd, StartsWild;
    if f == "#" {
      t := "$";
      HashAlone(t);
    } else {
      FirstIsPlus(f);
      SplitHasNoSlash(f);
      DollarsMatch(Split(f));
      var tl := Dollars(Split(f));
      t := Join(tl);
      JoinStart(tl);
      SplitJoin(tl);
      ScanIsLevelMatch(f, t);
      DollarsEnd(Split(f));
    }
  }

  lemma FirstIsPlus(f: string)
    requires WellFormed(Split(f)) && StartsWild(f) && f != "#"
    ensures Split(f)[0] == "+"
  {
    FirstLevelKind(f);
    SplitStep(f);
    assert Head(f) != "" ==> Head(f)[0] == f[0];
    assert f[0] in Head(f) by { assert Head(f)[0] == f[0]; }
  }

  lemma DollarsEnd(fl: seq<string>)
    requires WellFormed(fl) && forall i :: 0 <= i < |fl| ==> NoSlash(fl[i])
    ensures !PlusOnEmptyEnd(fl, Dollars(fl))
  {
    DollarsMatch(fl);
  }

  /**
   * A filter is matched as the standard says on every topic (a topic has at least
   * one character) exactly when it does not begin with a wildcard and does not end
   * in '+' or '+/#'.
   */
  lemma FilterConformsIff(f: string)
    requires WellFormed(Split(f))
    ensures (forall t :: t != "" ==> Scan(f, t, true) == Standard(f, t)) <==> !StartsWild(f) && !EndsInPlus(Split(f))
  {
    hide Scan, LevelMatch, PlusOnEmptyEnd, WellFormed, EndsInPlus, StartsWild;
    if StartsWild(f) {
      var t := WildMatchesDollar(f);
      assert Scan(f, t, true) != Standard(f, t);
    } else if EndsInPlus(Split(f)) {
      SplitHasNoSlash(f);
      WitnessWorks(Split(f));
      var t := Join(Witness(Split(f)));
      SplitJoin(Witness(Split(f)));
      ScanIsLevelMatch(f, t);
      WitnessNotEmpty(f);
      assert Scan(f, t, true) != Standard(f, t);
    } else {
      forall t | t != "" ensures Scan(f, t, true) == Standard(f, t) {
        ScanIsLevelMatch(f, t);
        if LevelMatch(Split(f), Split(t)) && PlusOnEmptyEnd(Split(f), Split(t)) {
          DifferOnlyAtPlusEnd(Split(f), Split(t));
        }
      }
    }
  }

  lemma WitnessNotEmpty(f: string)
    requires EndsInPlus(Split(f)) && !StartsWild(f)
    ensures Join(Witness(Split(f))) != ""
  {
    var fl := Split(f);
    SplitStep(f);
    if fl[0] == "+" { assert Head(f) == "+" && f[0] == Head(f)[0]; }
    assert |fl| > 1 && !(|fl| == 2 && fl[1] == "#");
    JoinStart(Witness(fl));
  }

  function AllPlus(n: nat): (fl: seq<string>)
    ensures |fl| == n && forall i :: 0 <= i < n ==> fl[i] == "+"
  {
    seq(n, _ => "+")
  }

  lemma {:induction false} AllPlusMatches(tl: seq<string>)
    ensures LevelMatch(AllPlus(|tl|), tl)
  {
    if tl != [] {
      assert AllPlus(|tl|) == ["+"] + AllPlus(|tl| - 1) && tl == [tl[0]] + tl[1..];
      AllPlusMatches(tl[1..]);
      assert (["+"] + AllPlus(|tl| - 1))[0][0] == '+' && ["#"][0][0] == '#';
      LevelMatchStep("+", AllPlus(|tl| - 1), tl[0], tl[1..]);
    } else {
      assert AllPlus(0) == [];
    }
  }

  /**
   * A topic is matched as the standard says by every well-formed filter exactly when it
   * does not begin with '$' and its last level is not empty.
   */
  lemma TopicConformsIff(t: string)
    requires t != ""
    ensures (forall f :: WellFormed(Split(f)) ==> Scan(f, t, true) == Standard(f, t))
            <==> t[0] != '$' && Last(Split(t)) != ""
  {
    hide Scan, LevelMatch, WellFormed;
    if t[0] == '$' {
      HashAlone(t);
      HashWellFormed();
      assert Scan("#", t, true) != Standard("#", t);
    } else if Last(Split(t)) == "" {
      var fl := AllPlus(|Split(t)|);
      var f := Join(fl);
      SplitJoin(fl);
      AllPlusMatches(Split(t));
      AllPlusWellFormed(|Split(t)|);
      ScanIsLevelMatch(f, t);
      assert Scan(f, t, true) != Standard(f, t);
    } else {
      forall f | WellFormed(Split(f)) ensures Scan(f, t, true) == Standard(f, t) {
        ScanIsLevelMatch(f, t);
      }
    }
  }

  lemma HashWellFormed()
    ensures WellFormed(Split("#"))
  {
    HashAlone("");
    SplitStep("#");
    assert Head("#") == "#" by { assert "#"[1..] == ""; }
  }

  lemma AllPlusWellFormed(n: nat)
    ensures WellFormed(AllPlus(n))
  {
  }

  // ------------------------------------------------- a '#' that is not last

  /** The scan with '#' a wildcard only alone and last, as the comment in the source promises. */
  predicate Strict(f: string, t: string, start: bool)
    decreases |f|
  {
    if f == "" || t == "" then (f == "" && t == "") || (f == "/#" && t == "") || IsMultilevel(f, start)
    else if IsMultilevel(f, start) then true
    else if f[0] == '+' then Strict(f[1..], SkipLevel(t), false)
    else if f[0] != t[0] then false
    else Strict(f[1..], t[1..], f[0] == '/')
  }

  /**
   * "/#" stands at k with something behind it, where a topic can end: every '+'
   * before it is followed by '/' or another '+', and two do not stand right before it.
   */
  predicate InnerAt(f: string, k: nat)
  {
    && k + 2 < |f| && f[k] == '/' && f[k + 1] == '#'
    && (forall i :: 0 <= i < k && f[i] == '+' ==> f[i + 1] == '/' || f[i + 1] == '+')
    && !(k >= 2 && f[k - 1] == '+' && f[k - 2] == '+')
  }

  /** A topic for the filter from i up to k: its characters, with a letter for the first of each run of '+'. */
  function Upto(f: string, i: nat, k: nat): string
    requires k <= |f|
    decreases k - i
  {
    if i >= k then ""
    else if f[i] != '+' then [f[i]] + Upto(f, i + 1, k)
    else if i > 0 && f[i - 1] == '+' then Upto(f, i + 1, k)
    else "x" + Upto(f, i + 1, k)
  }

  /** Behind a '+' the topic goes on with '/'. */
  lemma {:induction false} UptoAfterPlus(f: string, i: nat, k: nat)
    requires InnerAt(f, k) && 0 < i < k && f[i - 1] == '+'
    ensures Upto(f, i, k) != "" && Upto(f, i, k)[0] == '/'
    decreases k - i
  {
    if f[i] == '/' {
    } else {
      UptoAfterPlus(f, i + 1, k);
    }
  }

  /** On that topic the scan succeeds and the promised one fails. */
  lemma {:induction false} InnerDiffers(f: string, i: nat, k: nat, start: bool)
    requires InnerAt(f, k) && i <= k
    ensures Scan(f[i..], Upto(f, i, k), start) && !Strict(f[i..], Upto(f, i, k), start)
    decreases k - i
  {
    var g, t := f[i..], Upto(f, i, k);
    if i < k {
      assert g[0] == f[i] && g[1..] == f[i + 1..];
      InnerDiffers(f, i + 1, k, f[i] == '/');
      var rest := Upto(f, i + 1, k);
      if f[i] == '+' {
        if i + 1 < k { UptoAfterPlus(f, i + 1, k); }
        if i > 0 && f[i - 1] == '+' {
          UptoAfterPlus(f, i, k);
        } else {
          assert t[1..] == rest;
        }
        assert SkipLevel(t) == rest;
      } else {
        assert t[0] == f[i] && t[1..] == rest;
      }
    }
  }

  /** Where the two scans differ there is such a "/#", at the start only for the empty topic. */
  lemma {:induction false} DifferenceIsInner(f: string, t: string, start: bool) returns (k: nat)
    requires Scan(f, t, start) != Strict(f, t, start)
    ensures InnerAt(f, k) && (k == 0 <==> t == "")
    ensures f[0] == '+' && t != "" && t[0] == '/' ==> k >= 2
    decreases |f|
  {
    if f == "" || t == "" {
      k := 0;
    } else {
      var rest := if f[0] == '+' then SkipLevel(t) else t[1..];
      var k' := DifferenceIsInner(f[1..], rest, f[0] == '/');
      k := k' + 1;
      assert forall i :: 0 <= i < |f| - 1 ==> f[1..][i] == f[i + 1];
      if f[0] == '+' {
        SkipStops(t);
        assert k' > 0 ==> f[1] == '/' || f[1] == '+';
      }
      forall i | 0 <= i < k && f[i] == '+' ensures f[i + 1] == '/' || f[i + 1] == '+' {
        if i > 0 { assert f[1..][i - 1] == '+'; }
      }
    }
  }

  lemma SkipStops(t: string)
    ensures SkipLevel(t) != "" ==> SkipLevel(t)[0] == '/'
  {
  }

  /**
   * For every filter: a '#' that is not alone and last is an ordinary character on
   * all topics if and only if no "/#" with something behind it stands where a topic
   * can end. On the empty topic the same holds for a "/#" at the very start.
   */
  lemma HashOrdinaryIff(f: string)
    ensures (forall t :: t != "" ==> Scan(f, t, true) == Strict(f, t, true)) <==> (forall k :: k > 0 ==> !InnerAt(f, k))
    ensures Scan(f, "", true) == Strict(f, "", true) <==> !InnerAt(f, 0)
  {
    hide Scan, Strict, InnerAt;
    assert f[0..] == f;
    if k: nat :| k > 0 && InnerAt(f, k) {
      InnerDiffers(f, 0, k, true);
      UptoStart(f, k);
      assert Scan(f, Upto(f, 0, k), true) != Strict(f, Upto(f, 0, k), true);
    } else {
      forall t | t != "" ensures Scan(f, t, true) == Strict(f, t, true) {
        if Scan(f, t, true) != Strict(f, t, true) { var k := DifferenceIsInner(f, t, true); }
      }
    }
    if InnerAt(f, 0) {
      InnerDiffers(f, 0, 0, true);
    } else if Scan(f, "", true) != Strict(f, "", true) {
      var k := DifferenceIsInner(f, "", true);
    }
  }

  lemma UptoStart(f: string, k: nat)
    requires InnerAt(f, k) && k > 0
    ensures k <= |f| && Upto(f, 0, k) != ""
  {
  }

  /** When every '+' is last or ends its level, that is just: "/#" occurs with something behind it. */
  lemma InnerOfPlain(f: string, k: nat)
    requires forall i :: 0 <= i < |f| - 1 && f[i] == '+' ==> f[i + 1] == '/'
    ensures InnerAt(f, k) <==> k + 2 < |f| && f[k] == '/' && f[k + 1] == '#'
  {
    if k >= 2 && k + 2 < |f| { assert f[k - 2] == '+' ==> f[k - 1] == '/'; }
  }

  /** The filter "a/#b" has such a "/#", and matches the topic "a". */
  lemma MisplacedHashMatches()
    ensures InnerAt("a/#b", 1) && Scan("a/#b", "a", true) && !Strict("a/#b", "a", true)
  {
    var f := "a/#b";
    assert f[1..] == "/#b" && "a"[1..] == "";
  }
}
