/**
 Series keys (models/points.go): the escaped measurement name, then the non-empty
 tags, escaped and in order. Strings are sequences of bytes.
 */
module SeriesKey {
  import opened Values
  import opened Strings
  import opened Sequences

  const BS: char := '\\'

  /** The bytes that `measurementEscapeCodes` and `tagEscapeCodes` escape with a backslash. */
  const NAME_SPECIALS: set<char> := {',', ' '}
  const TAG_SPECIALS: set<char> := {',', ' ', '='}

  /** Every special byte with a backslash before it. */
  function Esc(specials: set<char>, s: string): string {
    if s == [] then [] else (if s[0] in specials then [BS, s[0]] else [s[0]]) + Esc(specials, s[1..])
  }

  /** `bytes.Replace` of one escape code by its byte, from left to right. */
  function UnescapePass(c: char, s: string): string {
    if |s| < 2 then s
    else if s[0] == BS && s[1] == c then [c] + UnescapePass(c, s[2..])
    else [s[0]] + UnescapePass(c, s[1..])
  }

  // ----- Escaping and its undoing, byte by byte -----

  /** Escaping one more byte, one pass at a time. */
  lemma {:induction false} EscapeMore(specials: set<char>, c: char, s: string)
    requires c !in specials && c != BS
    ensures Esc({c}, Esc(specials, s)) == Esc(specials + {c}, s)
  {
    if s != [] {
      EscapeMore(specials, c, s[1..]);
      var head := if s[0] in specials then [BS, s[0]] else [s[0]];
      EscSplit({c}, head, Esc(specials, s[1..]));
      if s[0] in specials {
        assert head[1..] == [s[0]] && [s[0]][1..] == [];
        assert Esc({c}, [s[0]]) == [s[0]] + [];
      } else {
        assert head[1..] == [];
      }
    }
  }

  lemma {:induction false} EscSplit(specials: set<char>, a: string, b: string)
    ensures Esc(specials, a + b) == Esc(specials, a) + Esc(specials, b)
  {
    if a == [] {
      assert a + b == b;
    } else {
      EscSplit(specials, a[1..], b);
      assert (a + b)[1..] == a[1..] + b;
      Assoc(if a[0] in specials then [BS, a[0]] else [a[0]], Esc(specials, a[1..]), Esc(specials, b));
    }
  }

  /** A pass takes off the backslashes of its own byte, and no others. */
  lemma {:induction false} UnescapeOne(specials: set<char>, c: char, s: string)
    requires c in specials && BS !in specials
    ensures UnescapePass(c, Esc(specials, s)) == Esc(specials - {c}, s)
  {
    if s != [] {
      UnescapeOne(specials, c, s[1..]);
      var rest := Esc(specials, s[1..]);
      if s[0] == c {
        assert Esc(specials, s)[2..] == rest;
      } else if s[0] in specials {
        assert Esc(specials, s) == [BS] + ([s[0]] + rest);
        PassOver(c, BS, [s[0]] + rest);
        PassOver(c, s[0], rest);
      } else {
        NotCode(specials, c, s);
        PassOver(c, s[0], rest);
      }
    }
  }

  /** A byte that does not start the code stays. */
  lemma PassOver(c: char, x: char, rest: string)
    requires !(x == BS && rest != [] && rest[0] == c)
    ensures UnescapePass(c, [x] + rest) == [x] + UnescapePass(c, rest)
  {
    assert ([x] + rest)[1..] == rest;
  }

  /** After escaping, nothing but its own backslash stands before a special byte. */
  lemma NotCode(specials: set<char>, c: char, s: string)
    requires c in specials && BS !in specials && s != []
    ensures var rest := Esc(specials, s[1..]); rest != [] ==> rest[0] != c
  {
  }

  lemma {:induction false} EscNothing(s: string)
    ensures Esc({}, s) == s
  {
    if s != [] {
      EscNothing(s[1..]);
    }
  }

  lemma {:induction false} NothingToUnescape(c: char, s: string)
    requires BS !in s
    ensures UnescapePass(c, s) == s
  {
    if |s| >= 2 {
      NothingToUnescape(c, s[1..]);
    }
  }

  /** `escapeTag` and `escapeMeasurement`, whatever order the table is iterated in. */
  method Escape(specials: set<char>, s: string) returns (r: string)
    requires BS !in specials
    ensures r == Esc(specials, s)
  {
    r := s;
    EscNothing(s);
    var todo := specials;
    assert specials - todo == {};
    while todo != {}
      invariant todo <= specials && r == Esc(specials - todo, s)
      decreases |todo|
    {
      var c :| c in todo;
      EscapeMore(specials - todo, c, s);
      assert specials - todo + {c} == specials - (todo - {c});
      r := Esc({c}, r);
      todo := todo - {c};
    }
    assert specials - {} == specials;
  }

  // ----- Scanning -----

  /** `scanTo` and `scanTagValue`: where the block from `i` ends; a backslash skips the byte after it. */
  function Scan(buf: string, i: nat, stop: char): (end: nat)
    ensures end >= i
    decreases |buf| - i
  {
    if i >= |buf| then i
    else if buf[i] == BS then Scan(buf, i + 2, stop)
    else if buf[i] == stop then i
    else Scan(buf, i + 1, stop)
  }

  method ScanTo(buf: string, start: nat, stop: char) returns (i: nat)
    ensures i == Scan(buf, start, stop)
  {
    i := start;
    while i < |buf|
      invariant Scan(buf, start, stop) == Scan(buf, i, stop)
      decreases |buf| - i
    {
      if buf[i] == BS {
        i := i + 2;
        continue;
      }
      if buf[i] == stop {
        break;
      }
      i := i + 1;
    }
  }

  /**
   What can be written before a stop byte and read back: reading from the left,
   each backslash takes the byte after it, which must be there and not be the stop
   byte. Text without backslashes is always safe.
   */
  predicate Safe(s: string, stop: char) {
    if s == [] then true
    else if s[0] == BS then |s| >= 2 && s[1] != stop && Safe(s[2..], stop)
    else Safe(s[1..], stop)
  }

  lemma {:induction false} PlainIsSafe(s: string, stop: char)
    requires BS !in s
    ensures Safe(s, stop)
  {
    if s != [] {
      PlainIsSafe(s[1..], stop);
    }
  }

  lemma {:induction false} ScanShift(pre: string, buf: string, i: nat, stop: char)
    ensures Scan(pre + buf, |pre| + i, stop) == |pre| + Scan(buf, i, stop)
    decreases |buf| - i
  {
    if i < |buf| {
      assert (pre + buf)[|pre| + i] == buf[i];
      if buf[i] == BS {
        ScanShift(pre, buf, i + 2, stop);
      } else if buf[i] != stop {
        ScanShift(pre, buf, i + 1, stop);
      }
    }
  }

  /** A scan finds the end of an escaped text if and only if the text is safe. */
  lemma {:induction false} ScanExact(specials: set<char>, s: string, stop: char, rest: string)
    requires stop in specials && BS !in specials && (rest == [] || rest[0] == stop)
    ensures Scan(Esc(specials, s) + rest, 0, stop) == |Esc(specials, s)| <==> Safe(s, stop)
    decreases |s|
  {
    var e := Esc(specials, s);
    var buf := e + rest;
    if s == [] {
      assert buf == rest;
    } else if s[0] in specials {
      EscTail(specials, s, rest);
      ScanShift([BS, s[0]], Esc(specials, s[1..]) + rest, 0, stop);
      ScanExact(specials, s[1..], stop, rest);
    } else if s[0] != BS {
      EscTail(specials, s, rest);
      ScanShift([s[0]], Esc(specials, s[1..]) + rest, 0, stop);
      ScanExact(specials, s[1..], stop, rest);
    } else if |s| == 1 {
      assert e == [BS] + Esc(specials, []) == [BS];
    } else {
      ScanAfterBackslash(specials, s, stop, rest);
      ScanExact(specials, s[2..], stop, rest);
    }
  }

  lemma EscTail(specials: set<char>, s: string, rest: string)
    requires s != []
    ensures Esc(specials, s) + rest == (if s[0] in specials then [BS, s[0]] else [s[0]]) + (Esc(specials, s[1..]) + rest)
  {
  }

  lemma ScanAfterBackslash(specials: set<char>, s: string, stop: char, rest: string)
    requires stop in specials && BS !in specials && |s| >= 2 && s[0] == BS
    ensures var e, tail := Esc(specials, s), Esc(specials, s[2..]);
      && (s[1] == stop ==> Scan(e + rest, 0, stop) == 2 && |e| > 2)
      && (s[1] != stop ==> Scan(e + rest, 0, stop) == |e| - |tail| + Scan(tail + rest, 0, stop))
  {
    var tail := Esc(specials, s[2..]);
    var buf := Esc(specials, s) + rest;
    EscTail(specials, s, rest);
    EscTail(specials, s[1..], rest);
    assert s[1..][1..] == s[2..];
    if s[1] in specials {
      assert buf == [BS, BS, s[1]] + (tail + rest);
      ScanShift([BS, BS, s[1]], tail + rest, 0, stop);
    } else {
      assert buf == [BS, s[1]] + (tail + rest);
      ScanShift([BS, s[1]], tail + rest, 0, stop);
    }
  }

  // ----- The tags of a key -----

  type Tags = map<string, string>

  function EscTag(s: string): string {
    Esc(TAG_SPECIALS, s)
  }

  /** The tags that are kept: an empty value counts as no tag. */
  function Kept(tags: Tags): Tags {
    map k | k in tags && tags[k] != "" :: tags[k]
  }

  function Pair(k: string, v: string): string {
    [','] + k + ['='] + v
  }

  function TagPair(tags: Tags, k: string): string {
    Pair(EscTag(k), EscTag(if k in tags then tags[k] else ""))
  }

  /** Some tags, escaped, in the given order of their keys. */
  function Join(tags: Tags, order: seq<string>): string {
    if order == [] then [] else Join(tags, order[..|order| - 1]) + TagPair(tags, order[|order| - 1])
  }

  /** A tag with an empty value is as good as none; any other is kept. */
  lemma EmptyIsNone(tags: Tags, k: string, v: string)
    ensures Kept(tags[k := ""]) == Kept(tags - {k})
    ensures v != "" ==> Kept(tags[k := v]) == Kept(tags)[k := v]
  {
  }

  /** In a tag the comma, the blank and the equals sign are escaped, in a name the comma and the blank, and nothing else. */
  lemma EscapesOne(c: char)
    ensures EscTag([c]) == if c == ',' || c == ' ' || c == '=' then ['\\', c] else [c]
    ensures Esc(NAME_SPECIALS, [c]) == if c == ',' || c == ' ' then ['\\', c] else [c]
  {
    assert [c][1..] == [];
    assert Esc(TAG_SPECIALS, []) == [] && Esc(NAME_SPECIALS, []) == [];
    assert [BS, c] + [] == [BS, c] && [c] + [] == [c];
  }

  /** The keys of the kept tags, in order of their escaped form. */
  ghost predicate Lists(tags: Tags, order: seq<string>) {
    && (forall k :: k in order <==> k in Kept(tags))
    && forall i, j :: 0 <= i < j < |order| ==> Less(EscTag(order[i]), EscTag(order[j]))
  }

  lemma {:induction false} EscInjective(specials: set<char>, a: string, b: string)
    requires BS !in specials && Esc(specials, a) == Esc(specials, b)
    ensures a == b
  {
    if a != [] && b != [] {
      var ha, hb := if a[0] in specials then [BS, a[0]] else [a[0]], if b[0] in specials then [BS, b[0]] else [b[0]];
      assert Esc(specials, a)[|ha|..] == Esc(specials, a[1..]);
      assert Esc(specials, b)[|hb|..] == Esc(specials, b[1..]);
      SameStart(specials, a, b);
      EscInjective(specials, a[1..], b[1..]);
      assert a == [a[0]] + a[1..] && b == [b[0]] + b[1..];
    }
  }

  /** An escaped text tells which byte it starts with, for a backslash is never followed by a bare special byte. */
  lemma SameStart(specials: set<char>, a: string, b: string)
    requires BS !in specials && a != [] && b != [] && Esc(specials, a) == Esc(specials, b)
    ensures a[0] == b[0]
  {
    var ea, eb := Esc(specials, a), Esc(specials, b);
    if a[0] in specials && b[0] in specials {
      assert ea[1] == a[0] && eb[1] == b[0];
    } else if a[0] !in specials && b[0] !in specials {
      assert ea[0] == a[0] && eb[0] == b[0];
    } else if a[0] in specials {
      DifferentStart(specials, a, b);
    } else {
      DifferentStart(specials, b, a);
    }
  }

  lemma DifferentStart(specials: set<char>, a: string, b: string)
    requires BS !in specials && a != [] && b != [] && a[0] in specials && b[0] !in specials
    ensures Esc(specials, a) != Esc(specials, b)
  {
    assert Esc(specials, a)[0] == BS && Esc(specials, a)[1] == a[0];
    NotCode(specials, a[0], b);
  }

  lemma EscEmpty(s: string)
    ensures EscTag(s) == "" <==> s == ""
  {
  }

  // ----- What unescaping makes of a text -----

  /**
   The text ends in an even run of backslashes, and each stop byte follows an odd
   run (`escaped`) or an even one; `odd` counts those just before the text.
   */
  predicate Runs(s: string, odd: bool, stop: char, escaped: bool) {
    if s == [] then !odd
    else if s[0] == BS then Runs(s[1..], !odd, stop, escaped)
    else (s[0] == stop ==> odd == escaped) && Runs(s[1..], false, stop, escaped)
  }

  /** A text is safe if its stop bytes follow even runs. */
  lemma {:induction false} SafeIsRuns(s: string, stop: char)
    requires stop != BS
    ensures Safe(s, stop) <==> Runs(s, false, stop, false)
    decreases |s|
  {
    if s != [] {
      if s[0] != BS {
        SafeIsRuns(s[1..], stop);
      } else if |s| >= 2 {
        assert s[1..][1..] == s[2..];
        SafeIsRuns(s[2..], stop);
      }
    }
  }

  /** A scan takes in a whole text if its stop bytes follow odd runs. */
  lemma {:induction false} ScannedIsRuns(s: string, stop: char)
    requires stop != BS
    ensures Scan(s, 0, stop) == |s| <==> Runs(s, false, stop, true)
    decreases |s|
  {
    if s != [] {
      var n := if s[0] == BS then 2 else 1;
      if n <= |s| {
        assert s == s[..n] + s[n..];
        ScanShift(s[..n], s[n..], 0, stop);
        ScannedIsRuns(s[n..], stop);
        assert n == 2 ==> s[1..][1..] == s[2..];
      }
    }
  }

  /** The pass for another byte shortens only runs before that byte. */
  lemma {:induction false} PassKeepsRuns(c: char, s: string, odd: bool, stop: char, escaped: bool)
    requires c != stop && c != BS && stop != BS
    ensures Runs(UnescapePass(c, s), odd, stop, escaped) <==> Runs(s, odd, stop, escaped)
    decreases |s|
  {
    if |s| >= 2 {
      if s[0] == BS && s[1] == c {
        PassKeepsRuns(c, s[2..], false, stop, escaped);
        assert s[1..][1..] == s[2..];
        assert ([c] + UnescapePass(c, s[2..]))[1..] == UnescapePass(c, s[2..]);
      } else {
        PassKeepsRuns(c, s[1..], if s[0] == BS then !odd else false, stop, escaped);
        assert ([s[0]] + UnescapePass(c, s[1..]))[1..] == UnescapePass(c, s[1..]);
      }
    }
  }

  /** The pass for the stop byte makes odd runs before it even. */
  lemma {:induction false} PassTurnsRuns(s: string, odd: bool, stop: char)
    requires stop != BS && Runs(s, odd, stop, true) && !(odd && s != [] && s[0] == stop)
    ensures Runs(UnescapePass(stop, s), odd, stop, false)
    decreases |s|
  {
    if |s| >= 2 {
      if s[0] == BS && s[1] == stop {
        assert s[1..][1..] == s[2..];
        PassTurnsRuns(s[2..], false, stop);
        assert ([stop] + UnescapePass(stop, s[2..]))[1..] == UnescapePass(stop, s[2..]);
      } else {
        PassTurnsRuns(s[1..], if s[0] == BS then !odd else false, stop);
        assert ([s[0]] + UnescapePass(stop, s[1..]))[1..] == UnescapePass(stop, s[1..]);
      }
    }
  }

  /** Every backslash stands before a special byte. */
  predicate Marked(specials: set<char>, s: string) {
    if s == [] then true
    else if s[0] == BS then |s| >= 2 && s[1] in specials && Marked(specials, s[2..])
    else Marked(specials, s[1..])
  }

  /** The text without its backslashes. */
  function Strip(s: string): string {
    if s == [] then [] else (if s[0] == BS then [] else [s[0]]) + Strip(s[1..])
  }

  /** What a pass leaves of a text: no marks before its byte, and the same bytes but for backslashes. */
  ghost predicate Passed(specials: set<char>, c: char, s: string) {
    Marked(specials - {c}, UnescapePass(c, s)) && Strip(UnescapePass(c, s)) == Strip(s)
  }

  lemma ShortPassed(specials: set<char>, c: char, s: string)
    requires |s| < 2 && Marked(specials, s)
    ensures Passed(specials, c, s)
  {
    assert UnescapePass(c, s) == s;
    assert |s| == 1 ==> s[1..] == [];
  }

  lemma PlainPassed(specials: set<char>, c: char, s: string)
    requires |s| >= 2 && s[0] != BS && Passed(specials, c, s[1..])
    ensures Passed(specials, c, s)
  {
    var rest := UnescapePass(c, s[1..]);
    assert UnescapePass(c, s) == [s[0]] + rest && ([s[0]] + rest)[1..] == rest;
  }

  lemma OwnPassed(specials: set<char>, c: char, s: string)
    requires |s| >= 2 && s[0] == BS && s[1] == c != BS && Passed(specials, c, s[2..])
    ensures Passed(specials, c, s)
  {
    var rest := UnescapePass(c, s[2..]);
    assert UnescapePass(c, s) == [c] + rest && ([c] + rest)[1..] == rest;
    assert s[1..][1..] == s[2..];
  }

  lemma OtherPassed(specials: set<char>, c: char, s: string)
    requires |s| >= 2 && s[0] == BS && s[1] != c && s[1] in specials && BS !in specials && Passed(specials, c, s[2..])
    ensures Passed(specials, c, s)
  {
    var rest := UnescapePass(c, s[2..]);
    PassOver(c, s[1], s[2..]);
    assert s[1..] == [s[1]] + s[2..] && s[1..][1..] == s[2..];
    assert UnescapePass(c, s) == [BS] + ([s[1]] + rest);
    MarkedPair(specials - {c}, s[1], rest);
  }

  /** A pass takes off the backslashes before its byte. */
  lemma {:induction false} PassStrips(specials: set<char>, c: char, s: string)
    requires c in specials && BS !in specials && Marked(specials, s)
    ensures Passed(specials, c, s)
    decreases |s|
  {
    if |s| < 2 {
      ShortPassed(specials, c, s);
    } else {
      hide Passed;
      if s[0] != BS {
        PassStrips(specials, c, s[1..]);
        PlainPassed(specials, c, s);
      } else {
        PassStrips(specials, c, s[2..]);
        if s[1] == c {
          OwnPassed(specials, c, s);
        } else {
          OtherPassed(specials, c, s);
        }
      }
    }
  }

  lemma MarkedPair(specials: set<char>, x: char, rest: string)
    requires x in specials && BS !in specials && Marked(specials, rest)
    ensures Marked(specials, [BS] + ([x] + rest)) && Strip([BS] + ([x] + rest)) == [x] + Strip(rest)
  {
    var t := [BS] + ([x] + rest);
    assert t[1..] == [x] + rest && t[2..] == rest && ([x] + rest)[1..] == rest;
  }

  lemma {:induction false} UnmarkedIsStripped(s: string)
    requires Marked({}, s)
    ensures Strip(s) == s
  {
    if s != [] {
      UnmarkedIsStripped(s[1..]);
    }
  }

  /**
   `unescapeTag` and `unescapeMeasurement`: whatever the iteration order, they undo
   the escaping of every byte string, take the backslashes off a text that has them
   only before special bytes, and make a text that a scan takes in whole safe.
   */
  method Unescape(specials: set<char>, s: string) returns (r: string)
    requires BS !in specials
    ensures forall x :: s == Esc(specials, x) ==> r == x
    ensures BS !in s ==> r == s
    ensures Marked(specials, s) ==> r == Strip(s)
    ensures forall stop :: stop in specials && Scan(s, 0, stop) == |s| ==> Safe(r, stop)
  {
    hide Esc, Scan, Safe, Runs, Marked, Strip;
    r := s;
    var todo := specials;
    while todo != {}
      invariant todo <= specials
      invariant forall x :: s == Esc(specials, x) ==> r == Esc(todo, x)
      invariant BS !in s ==> r == s
      invariant Marked(specials, s) ==> Marked(todo, r) && Strip(r) == Strip(s)
      invariant forall stop :: stop in specials && Runs(s, false, stop, true) ==> Runs(r, false, stop, stop in todo)
      decreases |todo|
    {
      hide UnescapePass;
      var c :| c in todo;
      forall x | s == Esc(specials, x) ensures UnescapePass(c, r) == Esc(todo - {c}, x) {
        UnescapeOne(todo, c, x);
      }
      if BS !in s {
        NothingToUnescape(c, s);
      }
      if Marked(specials, s) {
        PassStrips(todo, c, r);
      }
      forall stop | stop in specials && Runs(s, false, stop, true) ensures Runs(UnescapePass(c, r), false, stop, stop in todo - {c}) {
        if stop == c {
          PassTurnsRuns(r, false, stop);
        } else {
          PassKeepsRuns(c, r, false, stop, stop in todo);
        }
      }
      r := UnescapePass(c, r);
      todo := todo - {c};
    }
    forall x | s == Esc(specials, x) ensures r == x {
      EscNothing(x);
    }
    if Marked(specials, s) {
      UnmarkedIsStripped(r);
    }
    forall stop | stop in specials && Scan(s, 0, stop) == |s| ensures Safe(r, stop) {
      ScannedIsRuns(s, stop);
      SafeIsRuns(r, stop);
    }
  }

  // ----- HashKey -----

  /** The escaped form of the kept tags. */
  ghost predicate IsEscaped(tags: Tags, done: set<string>, escaped: Tags) {
    && (forall k :: k in done && k in Kept(tags) ==> EscTag(k) in escaped && escaped[EscTag(k)] == EscTag(tags[k]))
    && forall e :: e in escaped ==> exists k :: k in done && k in Kept(tags) && EscTag(k) == e
  }

  method EscapeTags(tags: Tags) returns (escaped: Tags)
    ensures IsEscaped(tags, tags.Keys, escaped)
  {
    escaped := map[];
    var todo := tags.Keys;
    while todo != {}
      invariant todo <= tags.Keys && IsEscaped(tags, tags.Keys - todo, escaped)
      decreases |todo|
    {
      hide Esc, EscTag;
      var k :| k in todo;
      var ek := EscapeTag(k);
      var ev := EscapeTag(tags[k]);
      EscEmpty(tags[k]);
      EscapedNext(tags, tags.Keys - todo, escaped, k);
      assert tags.Keys - todo + {k} == tags.Keys - (todo - {k});
      hide IsEscaped;
      if |ev| > 0 {
        escaped := escaped[ek := ev];
      }
      todo := todo - {k};
    }
  }

  method EscapeTag(s: string) returns (r: string)
    ensures r == EscTag(s)
  {
    r := Escape(TAG_SPECIALS, s);
  }

  lemma EscapedNext(tags: Tags, done: set<string>, escaped: Tags, k: string)
    requires IsEscaped(tags, done, escaped) && k in tags && k !in done
    ensures IsEscaped(tags, done + {k}, if tags[k] == "" then escaped else escaped[EscTag(k) := EscTag(tags[k])])
  {
    hide Esc;
    forall x | x in done ensures EscTag(x) != EscTag(k) {
      if EscTag(x) == EscTag(k) {
        EscInjective(TAG_SPECIALS, x, k);
      }
    }
  }

  /** Room for the pairs of some keys. */
  function Room(escaped: Tags, keys: seq<string>): nat
    requires forall k :: k in keys ==> k in escaped
  {
    if keys == [] then 0 else Room(escaped, keys[1..]) + |keys[0]| + |escaped[keys[0]]| + 3
  }

  lemma {:induction false} RoomSplit(escaped: Tags, a: seq<string>, b: seq<string>)
    requires forall k :: k in a + b ==> k in escaped
    ensures (forall k :: k in a ==> k in a + b) && (forall k :: k in b ==> k in a + b)
    ensures Room(escaped, a + b) == Room(escaped, a) + Room(escaped, b)
  {
    assert forall k :: k in a ==> k in a + b;
    assert forall k :: k in b ==> k in a + b;
    if a == [] {
      assert a + b == b;
    } else {
      assert (a + b)[1..] == a[1..] + b;
      RoomSplit(escaped, a[1..], b);
    }
  }

  lemma RoomWithout(escaped: Tags, s: seq<string>, i: nat)
    requires (forall k :: k in s ==> k in escaped) && i < |s|
    ensures forall k :: k in s[..i] + s[i + 1..] ==> k in escaped
    ensures Room(escaped, s) == Room(escaped, s[..i] + s[i + 1..]) + Room(escaped, [s[i]])
  {
    hide Room;
    Cut(s, i);
    RoomSplit(escaped, s[..i], [s[i]] + s[i + 1..]);
    RoomSplit(escaped, [s[i]], s[i + 1..]);
    RoomSplit(escaped, s[..i], s[i + 1..]);
  }

  /** The room does not depend on the order. */
  lemma {:induction false} RoomPermuted(escaped: Tags, a: seq<string>, b: seq<string>)
    requires multiset(a) == multiset(b) && forall k :: k in a ==> k in escaped
    ensures forall k :: k in b ==> k in escaped
    ensures Room(escaped, a) == Room(escaped, b)
    decreases |a|
  {
    hide Room;
    SameElements(a, b);
    assert |multiset(a)| == |a| && |multiset(b)| == |b|;
    if a == [] {
      assert a == b;
    } else {
      assert a[0] in b;
      var i :| 0 <= i < |b| && b[i] == a[0];
      RoomWithout(escaped, a, 0);
      RoomWithout(escaped, b, i);
      CutBoth(a, b, i);
      RoomPermuted(escaped, a[1..], b[..i] + b[i + 1..]);
    }
  }

  /** `sort.Strings`, for different strings. */
  method SortStrings(keys: seq<string>, ghost escaped: Tags) returns (r: seq<string>)
    requires Distinct(keys) && forall k :: k in keys ==> k in escaped
    ensures Ascending(r) && forall k :: k in r <==> k in keys
    ensures Room(escaped, r) == Room(escaped, keys)
  {
    hide Room, Less;
    LessIsOrder();
    r := Sort(keys, (a: string, b: string) => Less(a, b));
    DistinctPermuted(keys, r);
    SameElements(r, keys);
    RoomPermuted(escaped, keys, r);
    forall i, j | 0 <= i < j < |r| ensures Less(r[i], r[j]) {
      LessIsTotal(r[i], r[j]);
    }
  }

  ghost predicate Ascending(s: seq<string>) {
    forall i, j :: 0 <= i < j < |s| ==> Less(s[i], s[j])
  }

  lemma LessIsOrder()
    ensures StrictOrder((a: string, b: string) => Less(a, b))
  {
    hide Less;
    forall x, y | Less(x, y) ensures !Less(y, x) {
      if Less(y, x) {
        LessIsTransitive(x, y, x);
        LessIsStrict(x);
      }
    }
    forall x, y, z | !Less(y, x) && !Less(z, y) ensures !Less(z, x) {
      NotLessTrans(x, y, z);
    }
  }

  method CopyInto(buf: array<char>, at: nat, s: string)
    requires at + |s| <= buf.Length
    modifies buf
    ensures buf[..at + |s|] == old(buf[..at]) + s
  {
    for i := 0 to |s|
      invariant buf[..at + i] == old(buf[..at]) + s[..i]
    {
      buf[at + i] := s[i];
      assert buf[..at + i + 1] == buf[..at + i] + [s[i]];
      assert s[..i + 1] == s[..i] + [s[i]];
    }
    assert s[..|s|] == s;
  }

  method PutPair(buf: array<char>, idx: nat, k: string, v: string) returns (end: nat)
    requires idx + |k| + |v| + 2 <= buf.Length
    modifies buf
    ensures end == idx + |k| + |v| + 2 && buf[..end] == old(buf[..idx]) + Pair(k, v)
  {
    CopyInto(buf, idx, [',']);
    CopyInto(buf, idx + 1, k);
    CopyInto(buf, idx + 1 + |k|, ['=']);
    CopyInto(buf, idx + |k| + 2, v);
    end := idx + |k| + |v| + 2;
    assert buf[..end] == old(buf[..idx]) + [','] + k + ['='] + v;
  }

  function JoinEscaped(escaped: Tags, keys: seq<string>): string
    requires forall k :: k in keys ==> k in escaped
  {
    if keys == [] then []
    else JoinEscaped(escaped, keys[..|keys| - 1]) + Pair(keys[|keys| - 1], escaped[keys[|keys| - 1]])
  }

  /** The last loop of `HashKey`, which fills a buffer of the size worked out before. */
  method Marshal(escaped: Tags, keys: seq<string>, sz: nat) returns (b: string)
    requires (forall k :: k in keys ==> k in escaped) && Room(escaped, keys) <= sz
    ensures b == JoinEscaped(escaped, keys)
  {
    var buf := new char[sz];
    var idx := 0;
    assert keys[0..] == keys && buf[..0] == [];
    for i := 0 to |keys|
      invariant 0 <= idx && idx + Room(escaped, keys[i..]) <= sz
      invariant buf[..idx] == JoinEscaped(escaped, keys[..i])
    {
      var k := keys[i];
      assert keys[i..][1..] == keys[i + 1..];
      assert keys[..i + 1][..i] == keys[..i];
      idx := PutPair(buf, idx, k, escaped[k]);
    }
    assert keys[..|keys|] == keys;
    b := buf[..idx];
  }

  /** The keys of the escaped map in the order the map gives them, and the room they need. */
  method KeysOf(escaped: Tags) returns (keys: seq<string>, sz: nat)
    ensures Distinct(keys) && forall k :: k in keys <==> k in escaped
    ensures sz == Room(escaped, keys)
  {
    keys, sz := [], 0;
    var todo := escaped.Keys;
    while todo != {}
      invariant todo <= escaped.Keys && (forall k :: k in keys <==> k in escaped && k !in todo)
      invariant Distinct(keys)
      invariant sz == Room(escaped, keys)
      decreases |todo|
    {
      var k :| k in todo;
      RoomSplit(escaped, keys, [k]);
      assert Room(escaped, [k]) == |k| + |escaped[k]| + 3;
      hide Room;
      keys := keys + [k];
      sz := sz + |k| + |escaped[k]| + 3;
      todo := todo - {k};
    }
  }

  /** The tag keys whose escaped forms are given. */
  lemma {:induction false} Originals(tags: Tags, escaped: Tags, keys: seq<string>) returns (order: seq<string>)
    requires IsEscaped(tags, tags.Keys, escaped) && forall k :: k in keys ==> k in escaped
    ensures |order| == |keys| && (forall i :: 0 <= i < |keys| ==> order[i] in Kept(tags) && EscTag(order[i]) == keys[i])
    ensures Join(tags, order) == JoinEscaped(escaped, keys)
  {
    hide Esc, EscTag;
    if keys == [] {
      order := [];
    } else {
      var n := |keys| - 1;
      var head := Originals(tags, escaped, keys[..n]);
      assert keys[n] in keys;
      var k :| k in tags.Keys && k in Kept(tags) && EscTag(k) == keys[n];
      order := head + [k];
      assert order[..n] == head;
    }
  }

  /** `Tags.HashKey`. */
  method HashKey(tags: Tags) returns (b: string, ghost order: seq<string>)
    ensures Lists(tags, order) && b == Join(tags, order)
  {
    hide Esc, EscTag, Less, Room;
    if |tags| == 0 {
      return "", [];
    }
    var escaped := EscapeTags(tags);
    var keys, sz := KeysOf(escaped);
    keys := SortStrings(keys, escaped);
    b := Marshal(escaped, keys, sz);
    order := Originals(tags, escaped, keys);
    ListsAll(tags, escaped, keys, order);
  }

  lemma ListsAll(tags: Tags, escaped: Tags, keys: seq<string>, order: seq<string>)
    requires IsEscaped(tags, tags.Keys, escaped) && (forall k :: k in keys <==> k in escaped) && Ascending(keys)
    requires |order| == |keys| && forall i :: 0 <= i < |keys| ==> order[i] in Kept(tags) && EscTag(order[i]) == keys[i]
    ensures Lists(tags, order)
  {
    hide Esc, EscTag, Less;
    forall k | k in Kept(tags) ensures k in order {
      assert EscTag(k) in keys;
      var i :| 0 <= i < |keys| && keys[i] == EscTag(k);
      Injective(order[i], k);
    }
    assert forall i, j :: 0 <= i < j < |order| ==> Less(EscTag(order[i]), EscTag(order[j]));
  }

  lemma Injective(a: string, b: string)
    requires EscTag(a) == EscTag(b)
    ensures a == b
  {
    EscInjective(TAG_SPECIALS, a, b);
  }

  // ----- Keys and what is read back from them -----

  function EscName(s: string): string {
    Esc(NAME_SPECIALS, s)
  }

  /** `MakeKey`; `u` is the name with any escapes taken off. */
  method MakeKey(name: string, tags: Tags) returns (key: string, ghost u: string, ghost order: seq<string>)
    ensures Lists(tags, order) && key == EscName(u) + Join(tags, order)
    ensures BS !in name ==> u == name
    ensures forall x :: name == EscName(x) ==> u == x
  {
    var raw := Unescape(NAME_SPECIALS, name);
    u := raw;
    var escaped := Escape(NAME_SPECIALS, raw);
    var hash: string;
    hash, order := HashKey(tags);
    key := escaped + hash;
  }

  lemma {:induction false} JoinSplit(tags: Tags, a: seq<string>, b: seq<string>)
    ensures Join(tags, a + b) == Join(tags, a) + Join(tags, b)
  {
    hide TagPair;
    if b == [] {
      assert a + b == a;
    } else {
      var n := |b| - 1;
      assert (a + b)[..|a + b| - 1] == a + b[..n];
      JoinSplit(tags, a, b[..n]);
      Assoc(Join(tags, a), Join(tags, b[..n]), TagPair(tags, b[n]));
    }
  }

  lemma {:induction false} JoinStart(tags: Tags, order: seq<string>)
    ensures Join(tags, order) == [] || Join(tags, order)[0] == ','
  {
    if order != [] {
      JoinStart(tags, order[..|order| - 1]);
    }
  }

  /** The raw name of a key is the escaped name if and only if the name is safe. */
  lemma NameExact(u: string, tags: Tags, order: seq<string>)
    requires Lists(tags, order)
    ensures Scan(EscName(u) + Join(tags, order), 0, ',') == |EscName(u)| <==> Safe(u, ',')
  {
    hide Less, Esc;
    JoinStart(tags, order);
    ScanExact(NAME_SPECIALS, u, ',', Join(tags, order));
  }

  /** A name and tags that can be read back. */
  ghost predicate SafeTags(tags: Tags) {
    forall k :: k in Kept(tags) ==> Safe(k, '=') && Safe(tags[k], ',')
  }

  lemma Slice<T>(pre: seq<T>, s: seq<T>, rest: seq<T>)
    ensures (pre + (s + rest))[|pre|..|pre| + |s|] == s
  {
  }

  lemma SpecialsOf()
    ensures ',' in TAG_SPECIALS && '=' in TAG_SPECIALS && BS !in TAG_SPECIALS
    ensures forall s :: EscTag(s) == Esc(TAG_SPECIALS, s)
  {
  }

  /** A safe text is read back from where it was written. */
  lemma ScanAfter(key: string, pre: string, s: string, stop: char, rest: string)
    requires (stop == ',' || stop == '=') && Safe(s, stop) && (rest == [] || rest[0] == stop) && key == pre + (EscTag(s) + rest)
    ensures var end := |pre| + |EscTag(s)|;
      Scan(key, |pre|, stop) == end <= |key| && key[|pre|..end] == EscTag(s)
  {
    hide *;
    SpecialsOf();
    Slice(pre, EscTag(s), rest);
    ScanExact(TAG_SPECIALS, s, stop, rest);
    ScanShift(pre, EscTag(s) + rest, 0, stop);
  }

  lemma PairPieces(pre: string, k: string, v: string, rest: string)
    ensures pre + (Pair(k, v) + rest) == (pre + [',']) + (k + (['='] + v + rest))
    ensures pre + (Pair(k, v) + rest) == (pre + [','] + k + ['=']) + (v + rest)
    ensures |pre + Pair(k, v)| == |pre| + |k| + |v| + 2
  {
  }

  /** The scans for the pair that starts at `at` find this tag key, and then this tag value. */
  ghost predicate FoundAt(key: string, at: nat, k: string, v: string) {
    var i, j := at + 1, at + 2 + |EscTag(k)|;
    && Scan(key, i, '=') == i + |EscTag(k)| <= |key| && key[i..i + |EscTag(k)|] == EscTag(k)
    && Scan(key, j, ',') == j + |EscTag(v)| <= |key| && key[j..j + |EscTag(v)|] == EscTag(v)
  }

  lemma ScanPair(key: string, pre: string, k: string, v: string, rest: string)
    requires Safe(k, '=') && Safe(v, ',') && (rest == [] || rest[0] == ',') && key == pre + (Pair(EscTag(k), EscTag(v)) + rest)
    ensures FoundAt(key, |pre|, k, v)
  {
    hide EscTag, Scan, Pair, Safe;
    var ek, ev := EscTag(k), EscTag(v);
    PairPieces(pre, ek, ev, rest);
    ScanAfter(key, pre + [','], k, '=', ['='] + ev + rest);
    ScanAfter(key, pre + [','] + ek + ['='], v, ',', rest);
  }

  /** The name, the tags and the order a key was made from, when there are such. */
  datatype Origin = Origin(name: string, tags: Tags, order: seq<string>)

  ghost predicate MadeFrom(key: string, o: Origin) {
    && o.name != "" && Safe(o.name, ',') && SafeTags(o.tags)
    && Lists(o.tags, o.order) && key == EscName(o.name) + Join(o.tags, o.order)
  }

  /** How much of a key is before its pair number `n`. */
  ghost function Before(o: Origin, n: nat): string
    requires n <= |o.order|
  {
    EscName(o.name) + Join(o.tags, o.order[..n])
  }

  lemma SplitAt(key: string, o: Origin, n: nat)
    requires MadeFrom(key, o) && n < |o.order|
    ensures Before(o, n + 1) == Before(o, n) + TagPair(o.tags, o.order[n])
    ensures key == Before(o, n) + (TagPair(o.tags, o.order[n]) + Join(o.tags, o.order[n + 1..]))
  {
    hide EscName, TagPair, Lists, SafeTags, Safe;
    var a, k, b := o.order[..n], o.order[n], o.order[n + 1..];
    Cut(o.order, n);
    assert o.order[..n + 1] == a + [k];
    JoinSplit(o.tags, a, [k] + b);
    JoinSplit(o.tags, [k], b);
    JoinSplit(o.tags, a, [k]);
    assert [k][..0] == [];
    assert Join(o.tags, [k]) == TagPair(o.tags, k);
    hide Join;
    Assoc(EscName(o.name), Join(o.tags, a), TagPair(o.tags, k));
    Assoc(EscName(o.name), Join(o.tags, a), TagPair(o.tags, k) + Join(o.tags, b));
  }

  lemma OriginAt(key: string, o: Origin, n: nat)
    requires MadeFrom(key, o) && n < |o.order|
    ensures var k := o.order[n];
      && k in o.tags && o.tags[k] != "" && k in Kept(o.tags) && Safe(k, '=') && Safe(o.tags[k], ',')
      && TagPair(o.tags, k) == Pair(EscTag(k), EscTag(o.tags[k]))
  {
    hide EscName, EscTag, Pair, Join, Safe, Less;
    assert o.order[n] in o.order;
  }

  lemma PairLength(key: string, o: Origin, n: nat)
    requires MadeFrom(key, o) && n < |o.order| && o.order[n] in o.tags
    ensures |Before(o, n + 1)| == |Before(o, n)| + 2 + |EscTag(o.order[n])| + |EscTag(o.tags[o.order[n]])|
  {
    hide *;
    OriginAt(key, o, n);
    SplitAt(key, o, n);
    PairPieces(Before(o, n), EscTag(o.order[n]), EscTag(o.tags[o.order[n]]), "");
  }

  lemma PairShape(key: string, o: Origin, n: nat)
    requires MadeFrom(key, o) && n < |o.order| && o.order[n] in o.tags
    ensures var k, v, rest := o.order[n], o.tags[o.order[n]], Join(o.tags, o.order[n + 1..]);
      Safe(k, '=') && Safe(v, ',') && (rest == [] || rest[0] == ',') && key == Before(o, n) + (Pair(EscTag(k), EscTag(v)) + rest)
  {
    hide *;
    OriginAt(key, o, n);
    SplitAt(key, o, n);
    JoinStart(o.tags, o.order[n + 1..]);
  }

  lemma PairFound(key: string, o: Origin, n: nat)
    requires MadeFrom(key, o) && n < |o.order| && o.order[n] in o.tags
    ensures FoundAt(key, |Before(o, n)|, o.order[n], o.tags[o.order[n]])
  {
    hide *;
    PairShape(key, o, n);
    ScanPair(key, Before(o, n), o.order[n], o.tags[o.order[n]], Join(o.tags, o.order[n + 1..]));
  }

  /** The scans for pair number `n` of a key find its key and its value. */
  lemma PairAt(key: string, o: Origin, n: nat)
    requires MadeFrom(key, o) && n < |o.order| && o.order[n] in o.tags
    ensures var k, v := o.order[n], o.tags[o.order[n]];
            var i := |Before(o, n)| + 1;
            var j := |Before(o, n)| + 2 + |EscTag(k)|;
      && Scan(key, i, '=') == i + |EscTag(k)| <= |key| && key[i..i + |EscTag(k)|] == EscTag(k)
      && Scan(key, j, ',') == j + |EscTag(v)| == |Before(o, n + 1)| <= |key| && key[j..j + |EscTag(v)|] == EscTag(v)
  {
    hide MadeFrom, Before, EscTag, Scan, Join;
    PairFound(key, o, n);
    PairLength(key, o, n);
  }

  lemma NameEnd(key: string, o: Origin)
    requires MadeFrom(key, o)
    ensures Scan(key, 0, ',') == |EscName(o.name)| == |Before(o, 0)| && 0 < |EscName(o.name)| <= |key|
    ensures key[..|EscName(o.name)|] == EscName(o.name) && |Before(o, |o.order|)| == |key|
  {
    NameExact(o.name, o.tags, o.order);
    assert o.order[..0] == [] && o.order[..|o.order|] == o.order;
    hide Scan, Join, Less, Safe, EscTag, Lists;
  }

  /** What unescaping a tag key or value promises of its result. */
  ghost predicate UnescapedTo(s: string, r: string) {
    && (forall x :: s == EscTag(x) ==> r == x)
    && (Marked(TAG_SPECIALS, s) ==> r == Strip(s))
    && forall stop :: stop in TAG_SPECIALS && Scan(s, 0, stop) == |s| ==> Safe(r, stop)
  }

  method UnescapeTag(s: string) returns (r: string)
    ensures UnescapedTo(s, r)
  {
    hide Esc, Scan, Safe, Marked, Strip;
    r := Unescape(TAG_SPECIALS, s);
  }

  /** One pair of `point.Tags`, from position `at`: where it ends, and the key and value. None when a scan runs past the end. */
  method ReadPair(key: string, at: nat) returns (end: nat, r: Option<(string, string)>)
    ensures end == PairEnd(key, at) && r == PairText(key, at)
  {
    var i := ScanTo(key, at, '=');
    end := ScanTo(key, i + 1, ',');
    if end > |key| {
      return end, None;
    }
    return end, Some((key[at..i], key[i + 1..end]));
  }

  function PairEnd(key: string, at: nat): (end: nat)
    ensures end > at
  {
    Scan(key, Scan(key, at, '=') + 1, ',')
  }

  function PairText(key: string, at: nat): Option<(string, string)> {
    var i := Scan(key, at, '=');
    if PairEnd(key, at) > |key| then None else Some((key[at..i], key[i + 1..PairEnd(key, at)]))
  }

  /** The texts of the pairs from a position on, without those that have no value, after which the comma is read again. */
  ghost function RawPairs(key: string, at: nat): Option<seq<(string, string)>>
    decreases |key| - at
  {
    if at >= |key| then Some([])
    else
      var pair, end := PairText(key, at), PairEnd(key, at);
      if pair.None? then None
      else if pair.value.1 == "" then RawPairs(key, end)
      else Following([pair.value], RawPairs(key, end + 1))
  }

  ghost function Following(done: seq<(string, string)>, rest: Option<seq<(string, string)>>): Option<seq<(string, string)>> {
    if rest.Some? then Some(done + rest.value) else None
  }

  /** The texts of the pairs of a key: a key without a name has none. */
  ghost function RawTags(key: string): Option<seq<(string, string)>> {
    var pos := Scan(key, 0, ',');
    if pos > |key| then None else if pos == 0 then Some([]) else RawPairs(key, pos + 1)
  }

  /** The pairs, unescaped and put into a map one after another. */
  ghost predicate Decodes(ps: seq<(string, string)>, tags: Tags) {
    if ps == [] then tags == map[]
    else
      var n := |ps| - 1;
      exists t, k, v :: Decodes(ps[..n], t) && UnescapedTo(ps[n].0, k) && UnescapedTo(ps[n].1, v) && tags == t[k := v]
  }

  /** What `point.Tags` makes of a key; None when a scan runs past its end. */
  ghost predicate ReadsTo(key: string, tags: Option<Tags>) {
    && (tags.Some? <==> RawTags(key).Some?)
    && (tags.Some? ==> Decodes(RawTags(key).value, tags.value))
  }

  lemma DecodesOne(ps: seq<(string, string)>, tags: Tags, pair: (string, string), k: string, v: string)
    requires Decodes(ps, tags) && UnescapedTo(pair.0, k) && UnescapedTo(pair.1, v)
    ensures Decodes(ps + [pair], tags[k := v])
  {
    hide UnescapedTo;
    var qs := ps + [pair];
    assert qs[..|qs| - 1] == ps && qs[|qs| - 1] == pair;
  }

  lemma FollowingOn(done: seq<(string, string)>, pair: (string, string), rest: Option<seq<(string, string)>>)
    ensures Following(done, Following([pair], rest)) == Following(done + [pair], rest)
  {
    if rest.Some? {
      Assoc(done, [pair], rest.value);
    }
  }

  method ReadPairs(key: string, start: nat) returns (tags: Option<Tags>)
    ensures tags.Some? <==> RawPairs(key, start).Some?
    ensures tags.Some? ==> Decodes(RawPairs(key, start).value, tags.value)
  {
    hide Decodes, UnescapedTo, PairText, PairEnd;
    var read: Tags := map[];
    var i := start;
    ghost var done := [];
    NothingRead(RawPairs(key, start));
    while i < |key|
      invariant RawPairs(key, start) == Following(done, RawPairs(key, i)) && Decodes(done, read)
      decreases |key| - i
    {
      var end, pair := ReadPair(key, i);
      if pair.None? {
        return None;
      }
      if |pair.value.1| == 0 {
        i := end;
        continue;
      }
      var k := UnescapeTag(pair.value.0);
      var v := UnescapeTag(pair.value.1);
      DecodesOne(done, read, pair.value, k, v);
      FollowingOn(done, pair.value, RawPairs(key, end + 1));
      done := done + [pair.value];
      read := read[k := v];
      i := end + 1;
    }
    assert done + [] == done;
    return Some(read);
  }

  lemma NothingRead(rest: Option<seq<(string, string)>>)
    ensures Following([], rest) == rest && Decodes([], map[])
  {
    if rest.Some? {
      assert [] + rest.value == rest.value;
    }
  }

  /** `point.Tags`. */
  method ReadTags(key: string) returns (tags: Option<Tags>)
    ensures ReadsTo(key, tags)
  {
    hide Decodes, RawPairs, Scan;
    NothingRead(Some([]));
    if |key| == 0 {
      assert Scan(key, 0, ',') == 0 by { EmptyScan(','); }
      return Some(map[]);
    }
    var pos := ScanTo(key, 0, ',');
    if pos > |key| {
      return None;
    }
    if pos == 0 {
      return Some(map[]);
    }
    tags := ReadPairs(key, pos + 1);
  }

  lemma EmptyScan(stop: char)
    ensures Scan("", 0, stop) == 0
  {
  }

  /** The raw name of a key; None when the scan runs past the end. */
  method RawName(key: string) returns (r: Option<string>)
    ensures r == NameOf(key)
  {
    var pos := ScanTo(key, 0, ',');
    return if pos > |key| then None else Some(key[..pos]);
  }

  function NameOf(key: string): Option<string> {
    var pos := Scan(key, 0, ',');
    if pos > |key| then None else Some(key[..pos])
  }

  // ----- Safe names and tags are read back -----

  function EscPair(tags: Tags, k: string): (string, string) {
    (EscTag(k), EscTag(if k in tags then tags[k] else ""))
  }

  ghost function EscPairs(tags: Tags, order: seq<string>): (ps: seq<(string, string)>)
    ensures |ps| == |order| && forall i :: 0 <= i < |order| ==> ps[i] == EscPair(tags, order[i])
  {
    seq(|order|, i requires 0 <= i < |order| => EscPair(tags, order[i]))
  }

  /** The pairs of a key are found one after another. */
  lemma {:induction false} MadeRawPairs(key: string, o: Origin, n: nat)
    requires MadeFrom(key, o) && n <= |o.order|
    ensures RawPairs(key, |Before(o, n)| + 1) == Some(EscPairs(o.tags, o.order[n..]))
    decreases |o.order| - n
  {
    hide MadeFrom, Before, EscTag, Scan, EscPair;
    NameEnd(key, o);
    if n == |o.order| {
      assert EscPairs(o.tags, o.order[n..]) == [];
    } else {
      OriginAt(key, o, n);
      MadePair(key, o, n);
      MadeRawPairs(key, o, n + 1);
      hide PairText, PairEnd;
      assert EscPairs(o.tags, o.order[n..]) == [EscPair(o.tags, o.order[n])] + EscPairs(o.tags, o.order[n + 1..]);
    }
  }

  lemma MadePair(key: string, o: Origin, n: nat)
    requires MadeFrom(key, o) && n < |o.order| && o.order[n] in o.tags && o.tags[o.order[n]] != ""
    ensures var at := |Before(o, n)| + 1;
      && at < |key| && PairEnd(key, at) == |Before(o, n + 1)|
      && PairText(key, at) == Some(EscPair(o.tags, o.order[n])) && EscPair(o.tags, o.order[n]).1 != ""
  {
    hide MadeFrom, Before, EscTag, Scan;
    PairAt(key, o, n);
    EscEmpty(o.tags[o.order[n]]);
  }

  /** Escaped pairs are decoded to the tags they were made from. */
  lemma {:induction false} EscDecodes(tags: Tags, order: seq<string>, read: Tags)
    requires Decodes(EscPairs(tags, order), read) && forall k :: k in order ==> k in tags
    ensures forall k :: k in read <==> k in order
    ensures forall k :: k in read ==> k in tags && read[k] == tags[k]
    decreases |order|
  {
    if order != [] {
      var n := |order| - 1;
      var ps, last := EscPairs(tags, order), order[n];
      hide EscTag;
      var t, k, v :| Decodes(ps[..n], t) && UnescapedTo(ps[n].0, k) && UnescapedTo(ps[n].1, v) && read == t[k := v];
      assert last in order && ps[n] == (EscTag(last), EscTag(tags[last]));
      assert k == last && v == tags[last];
      assert ps[..n] == EscPairs(tags, order[..n]) && order == order[..n] + [last];
      hide Decodes, UnescapedTo;
      assert forall x :: x in order[..n] ==> x in order;
      EscDecodes(tags, order[..n], t);
    }
  }

  /** Of a key made from a safe name and safe tags, the tags read are exactly those that are not empty. */
  lemma MadeReads(key: string, o: Origin, r: Option<Tags>)
    requires MadeFrom(key, o) && ReadsTo(key, r)
    ensures r == Some(Kept(o.tags)) && NameOf(key) == Some(EscName(o.name))
  {
    hide Decodes, RawPairs, Scan, Before, EscTag, Less, Safe, EscName, Join;
    NameEnd(key, o);
    MadeRawPairs(key, o, 0);
    assert o.order[0..] == o.order;
    forall k | k in o.order ensures k in o.tags {
      assert k in Kept(o.tags);
    }
    EscDecodes(o.tags, o.order, r.value);
    KeptIs(o.tags, o.order, r.value);
  }

  lemma KeptIs(tags: Tags, order: seq<string>, read: Tags)
    requires Lists(tags, order) && forall k :: k in read <==> k in order
    requires forall k :: k in read ==> k in tags && read[k] == tags[k]
    ensures read == Kept(tags)
  {
    hide EscTag, Less;
    forall k ensures k in read <==> k in Kept(tags) {
      assert k in order <==> k in Kept(tags);
    }
  }

  lemma AllRead(key: string, o: Origin, n: nat)
    requires MadeFrom(key, o) && n <= |o.order| && |Before(o, n)| + 1 >= |key|
    ensures n == |o.order|
  {
    hide *;
    if n < |o.order| {
      OriginAt(key, o, n);
      PairAt(key, o, n);
    }
  }

  /** Two keys made from safe names and tags are equal only if the names and the non-empty tags are. */
  lemma SameKey(key: string, o: Origin, p: Origin)
    requires MadeFrom(key, o) && MadeFrom(key, p)
    ensures o.name == p.name && Kept(o.tags) == Kept(p.tags)
  {
    hide MadeFrom, Scan, Esc, Before, Kept;
    NameEnd(key, o);
    NameEnd(key, p);
    EscInjective(NAME_SPECIALS, o.name, p.name);
    SameOrder(key, o, p, 0);
    SameTags(key, o, p);
  }

  /** The two have the same pairs from any number on, having had the same before. */
  lemma {:induction false} SameOrder(key: string, o: Origin, p: Origin, n: nat)
    requires MadeFrom(key, o) && MadeFrom(key, p) && n <= |o.order| && n <= |p.order|
    requires |Before(o, n)| == |Before(p, n)|
    ensures |o.order| == |p.order|
    ensures forall i :: n <= i < |o.order| ==> o.order[i] == p.order[i] && o.order[i] in o.tags && p.order[i] in p.tags && o.tags[o.order[i]] == p.tags[p.order[i]]
    decreases |o.order| - n
  {
    hide *;
    if n < |o.order| && n < |p.order| {
      OriginAt(key, o, n);
      OriginAt(key, p, n);
      PairAt(key, o, n);
      PairAt(key, p, n);
      Injective(o.order[n], p.order[n]);
      Injective(o.tags[o.order[n]], p.tags[p.order[n]]);
      SameOrder(key, o, p, n + 1);
    } else {
      NameEnd(key, o);
      NameEnd(key, p);
      AllRead(key, o, n);
      AllRead(key, p, n);
    }
  }

  lemma SameTags(key: string, o: Origin, p: Origin)
    requires MadeFrom(key, o) && MadeFrom(key, p) && |o.order| == |p.order|
    requires forall i :: 0 <= i < |o.order| ==> o.order[i] == p.order[i] && o.order[i] in o.tags && p.order[i] in p.tags && o.tags[o.order[i]] == p.tags[p.order[i]]
    ensures Kept(o.tags) == Kept(p.tags)
  {
    hide EscName, EscTag, Join, Safe, Less;
    assert o.order == p.order;
    forall k ensures k in Kept(o.tags) <==> k in Kept(p.tags) {
      assert k in o.order <==> k in Kept(o.tags);
      assert k in p.order <==> k in Kept(p.tags);
    }
    forall k | k in Kept(o.tags) ensures o.tags[k] == p.tags[k] {
      assert k in o.order;
      var i :| 0 <= i < |o.order| && o.order[i] == k;
    }
  }

  /** Names and tags without backslashes can always be read back. */
  lemma PlainIsMadeFrom(name: string, tags: Tags, order: seq<string>)
    requires name != "" && BS !in name && Lists(tags, order)
    requires forall k :: k in tags ==> BS !in k && BS !in tags[k]
    ensures MadeFrom(EscName(name) + Join(tags, order), Origin(name, tags, order))
  {
    hide Esc, Join, Less, Safe;
    PlainIsSafe(name, ',');
    forall k | k in Kept(tags) ensures Safe(k, '=') && Safe(tags[k], ',') {
      PlainIsSafe(k, '=');
      PlainIsSafe(tags[k], ',');
    }
  }

  // ----- Only safe tags are read back -----

  lemma {:induction false} ScanWithin(buf: string, at: nat, stop: char)
    requires Scan(buf, at, stop) <= |buf|
    ensures Scan(buf[at..Scan(buf, at, stop)], 0, stop) == Scan(buf, at, stop) - at
    decreases |buf| - at
  {
    var end := Scan(buf, at, stop);
    var text := buf[at..end];
    if text != [] {
      var n := if buf[at] == BS then 2 else 1;
      ScanWithin(buf, at + n, stop);
      assert text[n..] == buf[at + n..end] && text == text[..n] + text[n..];
      ScanShift(text[..n], text[n..], 0, stop);
    }
  }

  ghost predicate Scanned(pair: (string, string)) {
    Scan(pair.0, 0, '=') == |pair.0| && Scan(pair.1, 0, ',') == |pair.1|
  }

  lemma PairScanned(key: string, at: nat)
    requires PairText(key, at).Some?
    ensures Scanned(PairText(key, at).value)
  {
    ScanWithin(key, at, '=');
    ScanWithin(key, Scan(key, at, '=') + 1, ',');
  }

  /** A key and a value read are texts that a scan took in whole. */
  lemma {:induction false} RawScanned(key: string, at: nat)
    requires RawPairs(key, at).Some?
    ensures forall i :: 0 <= i < |RawPairs(key, at).value| ==> Scanned(RawPairs(key, at).value[i])
    decreases |key| - at
  {
    hide PairText, PairEnd, Scanned;
    if at < |key| {
      PairScanned(key, at);
      var end := PairEnd(key, at);
      RawScanned(key, if PairText(key, at).value.1 == "" then end else end + 1);
    }
  }

  ghost predicate AllSafe(tags: Tags) {
    forall k :: k in tags ==> Safe(k, '=') && Safe(tags[k], ',')
  }

  lemma {:induction false} DecodedIsSafe(ps: seq<(string, string)>, tags: Tags)
    requires Decodes(ps, tags) && forall i :: 0 <= i < |ps| ==> Scanned(ps[i])
    ensures AllSafe(tags)
  {
    hide Scan, Safe, Marked, Strip, EscTag;
    if ps != [] {
      var n := |ps| - 1;
      var t, k, v :| Decodes(ps[..n], t) && UnescapedTo(ps[n].0, k) && UnescapedTo(ps[n].1, v) && tags == t[k := v];
      assert Scanned(ps[n]);
      DecodedIsSafe(ps[..n], t);
    }
  }

  /** Whatever the key, the tags read from it are safe. */
  lemma ReadIsSafe(key: string, r: Tags)
    requires ReadsTo(key, Some(r))
    ensures AllSafe(r)
  {
    hide Scan, Decodes, RawPairs, AllSafe, Scanned;
    var pos := Scan(key, 0, ',');
    if pos != 0 {
      RawScanned(key, pos + 1);
    }
    DecodedIsSafe(RawTags(key).value, r);
  }

  /** The tags of a key are read back only if they are safe, and, of a key with a safe name, if they are. */
  lemma TagsExact(u: string, tags: Tags, order: seq<string>, r: Option<Tags>)
    requires Lists(tags, order) && ReadsTo(EscName(u) + Join(tags, order), r)
    ensures r == Some(Kept(tags)) ==> SafeTags(tags)
    ensures u != "" && Safe(u, ',') ==> (r == Some(Kept(tags)) <==> SafeTags(tags))
  {
    var key := EscName(u) + Join(tags, order);
    hide Lists, ReadsTo, Safe, Join, EscName;
    if r == Some(Kept(tags)) {
      ReadIsSafe(key, r.value);
    }
    if u != "" && Safe(u, ',') && SafeTags(tags) {
      MadeReads(key, Origin(u, tags, order), r);
    }
  }

  lemma NameReadExact(u: string, tags: Tags, order: seq<string>)
    requires Lists(tags, order)
    ensures NameOf(EscName(u) + Join(tags, order)) == Some(EscName(u)) <==> Safe(u, ',')
  {
    hide Lists, Safe, Join, EscName, Scan;
    NameExact(u, tags, order);
  }

  /** A key without a name: its raw name is empty, and it has no tags. */
  lemma NamelessReads(tags: Tags, order: seq<string>, r: Option<Tags>)
    requires Lists(tags, order) && ReadsTo(EscName("") + Join(tags, order), r)
    ensures r == Some(map[])
  {
    var key := Join(tags, order);
    JoinStart(tags, order);
    assert EscName("") + key == key && Scan(key, 0, ',') == 0;
  }

  /**
   Making a key and reading it: of any name and any tags, both the name and the
   non-empty tags come back if and only if the name is safe, the tags are safe, and
   there is a name unless there are no tags. `u` is the name with any escapes taken off.
   */
  method MakeThenRead(name: string, tags: Tags) returns (n: Option<string>, r: Option<Tags>, ghost u: string)
    ensures (BS !in name ==> u == name) && forall x :: name == EscName(x) ==> u == x
    ensures r == Some(Kept(tags)) ==> SafeTags(tags)
    ensures u != "" && Safe(u, ',') ==> (r == Some(Kept(tags)) <==> SafeTags(tags))
    ensures n == Some(EscName(u)) && r == Some(Kept(tags))
            <==> Safe(u, ',') && SafeTags(tags) && (u != "" || Kept(tags) == map[])
  {
    hide Lists, ReadsTo, Safe, Join, EscName, SafeTags, Kept, NameOf;
    var key;
    ghost var order;
    key, u, order := MakeKey(name, tags);
    n := RawName(key);
    r := ReadTags(key);
    TagsExact(u, tags, order, r);
    NameReadExact(u, tags, order);
    if u == "" {
      NamelessReads(tags, order, r);
      NoneIsSafe(tags);
    }
  }

  lemma NoneIsSafe(tags: Tags)
    ensures Kept(tags) == map[] ==> SafeTags(tags)
  {
  }

  // ----- An unsafe tag -----

  /** A value that ends in a backslash swallows the comma after it, and with it the next tag. */
  lemma {:induction false} BackslashSwallows(v: string, next: string)
    requires BS !in v
    ensures Scan(EscTag(v + [BS]) + ([','] + next), 0, ',') == |EscTag(v + [BS])| + 1 + Scan(next, 0, ',')
  {
    hide Scan, EscTag;
    TrailingBackslash(v);
    var tail := [BS, ','] + next;
    assert EscTag(v + [BS]) + ([','] + next) == EscTag(v) + tail;
    ScanPast(v, tail);
    ScanEscaped(next);
  }

  lemma TrailingBackslash(v: string)
    ensures EscTag(v + [BS]) == EscTag(v) + [BS]
  {
    EscSplit(TAG_SPECIALS, v, [BS]);
    assert [BS][1..] == [];
    assert Esc(TAG_SPECIALS, [BS]) == [BS] + Esc(TAG_SPECIALS, []);
  }

  lemma ScanEscaped(next: string)
    ensures Scan([BS, ','] + next, 0, ',') == 2 + Scan(next, 0, ',')
  {
    ScanShift([BS, ','], next, 0, ',');
  }

  /** A scan passes over escaped text without backslashes of its own. */
  lemma {:induction false} ScanPast(v: string, rest: string)
    requires BS !in v
    ensures Scan(EscTag(v) + rest, 0, ',') == |EscTag(v)| + Scan(rest, 0, ',')
    decreases |v|
  {
    if v == [] {
      assert EscTag(v) + rest == rest;
    } else {
      ScanPast(v[1..], rest);
      EscTail(TAG_SPECIALS, v, rest);
      var head := if v[0] in TAG_SPECIALS then [BS, v[0]] else [v[0]];
      var tail := EscTag(v[1..]) + rest;
      assert EscTag(v) + rest == head + tail && |EscTag(v)| == |head| + |EscTag(v[1..])|;
      ScanShift(head, tail, 0, ',');
      assert Scan(head + tail, 0, ',') == Scan(head + tail, |head|, ',');
    }
  }

  lemma {:induction false} EscMarked(x: string)
    requires BS !in x
    ensures Marked(TAG_SPECIALS, EscTag(x)) && Strip(EscTag(x)) == x
  {
    if x != [] {
      EscMarked(x[1..]);
      var rest := EscTag(x[1..]);
      if x[0] in TAG_SPECIALS {
        assert EscTag(x) == [BS] + ([x[0]] + rest);
        MarkedPair(TAG_SPECIALS, x[0], rest);
      } else {
        assert EscTag(x) == [x[0]] + rest && ([x[0]] + rest)[1..] == rest;
      }
    }
  }

  lemma {:induction false} MarkedJoin(a: string, b: string)
    requires Marked(TAG_SPECIALS, a) && Marked(TAG_SPECIALS, b)
    ensures Marked(TAG_SPECIALS, a + b)
    decreases |a|
  {
    if a == [] {
      assert a + b == b;
    } else {
      var n := if a[0] == BS then 2 else 1;
      MarkedJoin(a[n..], b);
      assert (a + b)[n..] == a[n..] + b;
    }
  }

  lemma {:induction false} StripJoin(a: string, b: string)
    ensures Strip(a + b) == Strip(a) + Strip(b)
  {
    if a == [] {
      assert a + b == b;
    } else {
      StripJoin(a[1..], b);
      assert (a + b)[1..] == a[1..] + b;
      Assoc(if a[0] == BS then [] else [a[0]], Strip(a[1..]), Strip(b));
    }
  }

  /** The value text that takes in the next tag. */
  function Swallowing(v: string, k: string, w: string): string {
    EscTag(v + [BS]) + ([','] + (EscTag(k) + (['='] + EscTag(w))))
  }

  lemma SwallowingScans(v: string, k: string, w: string)
    requires BS !in v && BS !in k && BS !in w
    ensures Scan(Swallowing(v, k, w), 0, ',') == |Swallowing(v, k, w)|
  {
    hide EscTag;
    BackslashSwallows(v, EscTag(k) + (['='] + EscTag(w)));
    ScanPast(k, ['='] + EscTag(w));
    ScanShift(['='], EscTag(w), 0, ',');
    assert Scan(['='] + EscTag(w), 0, ',') == Scan(['='] + EscTag(w), 1, ',');
    ScanPast(w, "");
    assert EscTag(w) + "" == EscTag(w);
  }

  lemma SwallowingParts(v: string, k: string, w: string)
    ensures Swallowing(v, k, w) == EscTag(v) + ([BS, ','] + (EscTag(k) + (['='] + EscTag(w))))
  {
    hide EscTag;
    TrailingBackslash(v);
    var rest := EscTag(k) + (['='] + EscTag(w));
    Assoc(EscTag(v), [BS], [','] + rest);
    assert [BS] + ([','] + rest) == [BS, ','] + rest;
  }

  lemma SwallowingStrips(v: string, k: string, w: string)
    requires BS !in v && BS !in k && BS !in w
    ensures Marked(TAG_SPECIALS, Swallowing(v, k, w))
    ensures Strip(Swallowing(v, k, w)) == v + ([','] + (k + (['='] + w)))
  {
    hide EscTag, Marked, Strip, Swallowing;
    EscMarked(v);
    EscMarked(k);
    EscMarked(w);
    Codes();
    SwallowingParts(v, k, w);
    var last := ['='] + EscTag(w);
    var rest := EscTag(k) + last;
    MarkedJoin(['='], EscTag(w));
    StripJoin(['='], EscTag(w));
    MarkedJoin(EscTag(k), last);
    StripJoin(EscTag(k), last);
    MarkedJoin([BS, ','], rest);
    StripJoin([BS, ','], rest);
    MarkedJoin(EscTag(v), [BS, ','] + rest);
    StripJoin(EscTag(v), [BS, ','] + rest);
  }

  lemma Codes()
    ensures Marked(TAG_SPECIALS, ['=']) && Strip(['=']) == ['=']
    ensures Marked(TAG_SPECIALS, [BS, ',']) && Strip([BS, ',']) == [',']
  {
    assert [BS, ','][1..] == [','] && [BS, ','][2..] == [] && [','][1..] == [] && ['='][1..] == [];
  }

  /** The two tags of which the first has a value that ends in a backslash. */
  function TwoTags(k: string, v: string, k': string, w: string): Tags {
    map[k := v + [BS], k' := w]
  }

  lemma PairsText(n: string, a: string, b: string, c: string, d: string)
    ensures n + (Pair(a, b) + Pair(c, d)) == (n + [',']) + (a + (['='] + (b + ([','] + (c + (['='] + d))))))
  {
  }

  lemma TwoTagsJoin(k: string, v: string, k': string, w: string)
    requires k != k'
    ensures Join(TwoTags(k, v, k', w), [k, k']) == Pair(EscTag(k), EscTag(v + [BS])) + Pair(EscTag(k'), EscTag(w))
  {
    hide EscTag, Pair;
    var tags := TwoTags(k, v, k', w);
    assert [k, k'][..1] == [k] && [k][..0] == [];
    assert Join(tags, [k]) == [] + TagPair(tags, k) == TagPair(tags, k);
    assert tags[k] == v + [BS] && tags[k'] == w;
  }

  lemma TwoTagsKey(name: string, k: string, v: string, k': string, w: string)
    requires k != k'
    ensures EscName(name) + Join(TwoTags(k, v, k', w), [k, k'])
         == (EscName(name) + [',']) + (EscTag(k) + (['='] + Swallowing(v, k', w)))
  {
    hide EscTag, EscName, Join, Pair, TwoTags;
    TwoTagsJoin(k, v, k', w);
    PairsText(EscName(name), EscTag(k), EscTag(v + [BS]), EscTag(k'), EscTag(w));
  }

  predicate TextAt(key: string, i: nat, j: nat, text: string) {
    i <= j <= |key| && key[i..j] == text
  }

  /** A key that goes on to its end in the first value. */
  ghost predicate EndsIn(key: string, pre: string, k: string, text: string) {
    key == pre + (EscTag(k) + (['='] + text)) && Scan(text, 0, ',') == |text|
  }

  lemma OnePair(key: string, pre: string, k: string, text: string)
    requires EndsIn(key, pre, k, text) && Safe(k, '=')
    ensures PairText(key, |pre|) == Some((EscTag(k), text)) && PairEnd(key, |pre|) == |key| > |pre|
  {
    hide *;
    KeyScans(key, pre, k, text);
    RestScans(key, pre, k, text);
    PairIs(key, |pre|, |pre| + |EscTag(k)|, EscTag(k), text);
  }

  lemma KeyScans(key: string, pre: string, k: string, text: string)
    requires EndsIn(key, pre, k, text) && Safe(k, '=')
    ensures Scan(key, |pre|, '=') == |pre| + |EscTag(k)| && TextAt(key, |pre|, |pre| + |EscTag(k)|, EscTag(k))
  {
    hide EscTag, Safe, Scan;
    ScanAfter(key, pre, k, '=', ['='] + text);
  }

  lemma RestScans(key: string, pre: string, k: string, text: string)
    requires EndsIn(key, pre, k, text)
    ensures var i := |pre| + |EscTag(k)| + 1;
      Scan(key, i, ',') == |key| && TextAt(key, i, |key|, text)
  {
    hide EscTag, Scan, TextAt;
    var front := Front(pre, EscTag(k), text);
    ScanShift(front, text, 0, ',');
    Tail(front, text);
  }

  lemma Front(pre: string, k: string, text: string) returns (front: string)
    ensures |front| == |pre| + |k| + 1 && pre + (k + (['='] + text)) == front + text
  {
    front := pre + k + ['='];
  }

  lemma Tail(front: string, text: string)
    ensures TextAt(front + text, |front|, |front + text|, text)
  {
  }

  lemma PairIs(key: string, at: nat, i: nat, k: string, v: string)
    requires Scan(key, at, '=') == i && Scan(key, i + 1, ',') == |key| && TextAt(key, at, i, k) && TextAt(key, i + 1, |key|, v)
    ensures PairText(key, at) == Some((k, v)) && PairEnd(key, at) == |key| > at
  {
    hide Scan;
  }

  lemma OneRawPair(key: string, at: nat, pair: (string, string))
    requires PairText(key, at) == Some(pair) && PairEnd(key, at) == |key| > at && pair.1 != ""
    ensures RawPairs(key, at) == Some([pair])
  {
    hide PairText, PairEnd;
    assert RawPairs(key, |key| + 1) == Some([]);
    assert [pair] + [] == [pair];
  }

  lemma TwoTagsRaw(name: string, k: string, v: string, k': string, w: string)
    requires name != "" && k != k' && BS !in name && BS !in k && BS !in v && BS !in k' && BS !in w
    ensures RawTags(EscName(name) + Join(TwoTags(k, v, k', w), [k, k'])) == Some([(EscTag(k), Swallowing(v, k', w))])
  {
    hide EscTag, EscName, Join, Safe, Swallowing, Scan, PairText, PairEnd, RawPairs, TwoTags;
    var key := EscName(name) + Join(TwoTags(k, v, k', w), [k, k']);
    var pre, text := EscName(name) + [','], Swallowing(v, k', w);
    TwoTagsKey(name, k, v, k', w);
    Assoc(EscName(name), [','], EscTag(k) + (['='] + text));
    PlainNameEnd(name, EscTag(k) + (['='] + text));
    PlainIsSafe(k, '=');
    SwallowingScans(v, k', w);
    SwallowingIsText(v, k', w);
    assert EndsIn(key, pre, k, text);
    hide EndsIn;
    OnePair(key, pre, k, text);
    OneRawPair(key, |pre|, (EscTag(k), text));
  }

  lemma SwallowingIsText(v: string, k: string, w: string)
    ensures Swallowing(v, k, w) != ""
  {
  }

  lemma PlainNameEnd(name: string, rest: string)
    requires name != "" && BS !in name
    ensures Scan(EscName(name) + ([','] + rest), 0, ',') == |EscName(name)| > 0
  {
    PlainIsSafe(name, ',');
    ScanExact(NAME_SPECIALS, name, ',', [','] + rest);
  }

  /**
   Of a key made from two tags without other backslashes, of which the first has a
   value that ends in one, only the first is read, with the second in its value.
   */
  lemma SwallowedTag(name: string, k: string, v: string, k': string, w: string, r: Option<Tags>)
    requires name != "" && k != k' && BS !in name && BS !in k && BS !in v && BS !in k' && BS !in w
    requires ReadsTo(EscName(name) + Join(TwoTags(k, v, k', w), [k, k']), r)
    ensures r == Some(map[k := v + ([','] + (k' + (['='] + w)))])
  {
    var text := Swallowing(v, k', w);
    TwoTagsRaw(name, k, v, k', w);
    SwallowingStrips(v, k', w);
    hide EscTag, EscName, Join, Swallowing, RawTags, Marked, Strip;
    OneDecoded((EscTag(k), text), r.value, k, v + ([','] + (k' + (['='] + w))));
  }

  lemma OneDecoded(pair: (string, string), tags: Tags, k: string, v: string)
    requires Decodes([pair], tags) && pair.0 == EscTag(k) && Marked(TAG_SPECIALS, pair.1) && Strip(pair.1) == v
    ensures tags == map[k := v]
  {
    hide EscTag, Marked, Strip, Scan, Safe;
    assert [pair][..0] == [];
    var t, x, y :| Decodes([pair][..0], t) && UnescapedTo(pair.0, x) && UnescapedTo(pair.1, y) && tags == t[x := y];
    assert x == k && y == v;
  }

  /** So the key `m,a=x\,b=y`, of the tags `a` and `b`, has the one tag `a` with the value `x,b=y`. */
  lemma SwallowedExample(r: Option<Tags>)
    requires ReadsTo("m,a=x\\,b=y", r)
    ensures Lists(TwoTags("a", "x", "b", "y"), ["a", "b"])
    ensures EscName("m") + Join(TwoTags("a", "x", "b", "y"), ["a", "b"]) == "m,a=x\\,b=y"
    ensures r == Some(map["a" := "x,b=y"])
  {
    hide EscTag, EscName, Join, Less, Lists, TwoTags, Swallowing, ReadsTo;
    ExampleKey();
    ExampleOrder();
    SwallowedTag("m", "a", "x", "b", "y", r);
    assert "x" + ([','] + ("b" + (['='] + "y"))) == "x,b=y";
  }

  lemma ExampleKey()
    ensures EscName("m") + Join(TwoTags("a", "x", "b", "y"), ["a", "b"]) == "m,a=x\\,b=y"
  {
    hide EscTag, EscName, Join, TwoTags, Pair;
    TwoTagsJoin("a", "x", "b", "y");
    PlainText("a");
    PlainText("b");
    PlainText("x");
    PlainText("y");
    TrailingBackslash("x");
    ExampleText();
  }

  lemma ExampleText()
    ensures EscName("m") == "m"
    ensures "m" + (Pair("a", "x" + [BS]) + Pair("b", "y")) == "m,a=x\\,b=y"
  {
    assert "m"[1..] == "";
  }

  lemma ExampleOrder()
    ensures Lists(TwoTags("a", "x", "b", "y"), ["a", "b"])
  {
    PlainText("a");
    PlainText("b");
    assert Less("a", "b");
    hide EscTag, Less;
  }

  lemma PlainText(s: string)
    requires |s| == 1 && s[0] !in TAG_SPECIALS
    ensures EscTag(s) == s
  {
    assert s[1..] == [] && s == [s[0]] && Esc(TAG_SPECIALS, s[1..]) == [];
  }
}
