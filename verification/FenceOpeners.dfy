/**
  Fence markers and info strings: writing and reading them back, and what the CommonMark reader makes
  of an emitted opener. Its length is kept exactly when it is readable, and it is inert exactly when
  none of its words becomes an `ignore-` target on being read.
 */
module FenceOpeners {
  import opened Options
  import opened Sequences
  import opened FenceSpec

  // ----- Runs and markers --------------------------------------------------------------------

  lemma {:induction false} RunOf(c: char, n: nat, x: string)
    ensures LeadingRun(Repeat(c, n) + x, c) == n + LeadingRun(x, c)
  {
    var s := Repeat(c, n) + x;
    if n == 0 {
      assert s == x;
    } else {
      assert s[1..] == Repeat(c, n - 1) + x;
      RunOf(c, n - 1, x);
    }
  }

  /** Up to three spaces before a visible character do not indent it. */
  lemma IndentOf(indent: nat, s: string, line: string)
    requires indent <= 3 && (s == [] || (s[0] != ' ' && s[0] != '\t'))
    requires line == Repeat(' ', indent) + s
    ensures !IsIndented(line) && LeadingRun(line, ' ') == indent && line[indent..] == s
  {
    RunOf(' ', indent, s);
    RunWithin(line, "    ");
    if s != [] || indent > 0 {
      assert line[0] != '\t';
    }
  }

  lemma RunWithin(line: string, spaces: string)
    requires forall i :: 0 <= i < |spaces| ==> spaces[i] == ' '
    ensures spaces <= line <==> |spaces| <= LeadingRun(line, ' ')
  {
    var n := LeadingRun(line, ' ');
    if |spaces| <= n {
      assert spaces == line[..|spaces|];
    }
  }

  lemma MarkerAt(line: string, indent: nat, tail: string, len: nat, info: string)
    requires !IsIndented(line) && LeadingRun(line, ' ') == indent && line[indent..] == tail
    requires tail != [] && (tail[0] == '`' || tail[0] == '~')
    requires LeadingRun(tail, tail[0]) == len >= 3 && tail[len..] == info
    requires tail[0] == '`' ==> '`' !in info
    ensures FenceMarker(line) == Some(Fence(indent, tail[0], len, info))
  {
    hide LeadingRun, IsIndented;
  }

  lemma TailAt(ch: char, len: nat, info: string, tail: string)
    requires len > 0 && tail == Repeat(ch, len) + info
    ensures var k := LeadingRun(info, ch);
            tail[0] == ch && LeadingRun(tail, ch) == len + k && tail[len + k..] == info[k..]
  {
    hide LeadingRun;
    RunOf(ch, len, info);
  }

  /** A marker is read back from its parts, with the run lengthened by what follows it. */
  lemma MarkerOfParts(indent: nat, ch: char, len: nat, info: string, line: string)
    requires indent <= 3 && len >= 3 && (ch == '`' || ch == '~')
    requires ch == '`' ==> '`' !in info
    requires line == Repeat(' ', indent) + (Repeat(ch, len) + info)
    ensures var k := LeadingRun(info, ch);
            FenceMarker(line) == Some(Fence(indent, ch, len + k, info[k..]))
  {
    hide FenceMarker, LeadingRun, IsIndented;
    var tail := Repeat(ch, len) + info;
    var k := LeadingRun(info, ch);
    TailAt(ch, len, info, tail);
    DropMembers(info, k);
    MarkerOfTail(line, indent, tail, len + k, info[k..]);
  }

  lemma MarkerOfTail(line: string, indent: nat, tail: string, len: nat, info: string)
    requires indent <= 3 && line == Repeat(' ', indent) + tail
    requires tail != [] && (tail[0] == '`' || tail[0] == '~')
    requires LeadingRun(tail, tail[0]) == len >= 3 && tail[len..] == info
    requires tail[0] == '`' ==> '`' !in info
    ensures FenceMarker(line) == Some(Fence(indent, tail[0], len, info))
  {
    hide FenceMarker, LeadingRun, IsIndented;
    IndentOf(indent, tail, line);
    MarkerAt(line, indent, tail, len, info);
  }

  lemma RunIsRepeat(s: string, c: char)
    ensures var n := LeadingRun(s, c); s == Repeat(c, n) + s[n..]
  {
    hide LeadingRun;
  }

  /** What a marker says about the line it was read from. */
  lemma MarkerParts(line: string)
    requires FenceMarker(line).Some?
    ensures var f := FenceMarker(line).value;
            && f.indent <= 3 && f.len >= 3 && (f.ch == '`' || f.ch == '~')
            && line == Repeat(' ', f.indent) + (Repeat(f.ch, f.len) + f.info)
            && (f.ch == '`' ==> '`' !in f.info)
            && (f.info == [] || f.info[0] != f.ch)
  {
    hide LeadingRun;
    RunWithin(line, "    ");
    RunIsRepeat(line, ' ');
    var f := FenceMarker(line).value;
    RunIsRepeat(line[f.indent..], f.ch);
  }

  lemma ClosingRunCloses(ch: char, len: nat)
    requires len >= 3 && (ch == '`' || ch == '~')
    ensures ClosesWith(Repeat(ch, len), ch, len)
  {
    MarkerOfParts(0, ch, len, [], Repeat(ch, len));
  }

  lemma SyntheticMarkers()
    ensures FenceMarker("```") == Some(Fence(0, '`', 3, []))
    ensures FenceMarker("```text") == Some(Fence(0, '`', 3, "text"))
  {
    hide FenceMarker;
    MarkerOfParts(0, '`', 3, [], "```");
    MarkerOfParts(0, '`', 3, "text", "```text");
  }

  // ----- Info strings ------------------------------------------------------------------------

  lemma {:induction false} WordOf(t: string, x: string)
    requires IsToken(t) && (x == [] || IsSeparator(x[0]))
    ensures WordLen(t + x) == |t|
  {
    assert (t + x)[1..] == t[1..] + x;
    if |t| == 1 {
      assert t[1..] + x == x;
    } else {
      WordOf(t[1..], x);
    }
  }

  /** Splitting a comma-joined list of tokens gives the list back. */
  lemma {:induction false} TokensOfJoin(ts: seq<string>)
    requires forall t :: t in ts ==> IsToken(t)
    ensures Tokens(Join(ts)) == ts
  {
    if |ts| == 1 {
      WordOf(ts[0], []);
      assert ts[0] + [] == ts[0];
      assert ts == [ts[0]];
    } else if |ts| > 1 {
      var x := "," + Join(ts[1..]);
      var s := Join(ts);
      assert s == ts[0] + x;
      WordOf(ts[0], x);
      assert s[..|ts[0]|] == ts[0] && s[|ts[0]|..] == x;
      assert x[1..] == Join(ts[1..]);
      TokensOfJoin(ts[1..]);
      assert ts == [ts[0]] + ts[1..];
    }
  }

  lemma {:induction false} KeptMembers(ts: seq<string>)
    ensures forall t :: t in Kept(ts) <==> t in ts && !TargetsIgnore(t)
  {
    if ts != [] {
      KeptMembers(ts[1..]);
      assert ts == [ts[0]] + ts[1..];
    }
  }

  lemma RustIgnoreTokens()
    ensures Tokens("rust,ignore") == ["rust", "ignore"]
  {
    var ts := ["rust", "ignore"];
    assert Join(ts[1..]) == "ignore";
    assert Join(ts) == "rust,ignore";
    TokensOfJoin(ts);
  }

  /** Whatever the author wrote, the emitted info string is inert. */
  lemma InertInfoIsInert(info: string)
    ensures Inert(InertInfo(info))
  {
    var kept := Kept(Tokens(info));
    KeptMembers(Tokens(info));
    if kept == [] {
      RustIgnoreTokens();
    } else {
      var ts := if "ignore" in kept then kept else kept + ["ignore"];
      assert IsToken("ignore") && !TargetsIgnore("ignore");
      TokensOfJoin(ts);
    }
  }

  lemma {:induction false} JoinChars(ts: seq<string>, c: char)
    requires c != ',' && forall t :: t in ts ==> c !in t
    ensures c !in Join(ts)
  {
    if |ts| > 1 {
      JoinChars(ts[1..], c);
    }
  }

  lemma {:induction false} TokenChars(s: string, t: string, c: char)
    requires c !in s && t in Tokens(s)
    ensures c !in t
    decreases |s|
  {
    if IsSeparator(s[0]) {
      TokenChars(s[1..], t, c);
    } else if t in Tokens(s[WordLen(s)..]) {
      TokenChars(s[WordLen(s)..], t, c);
    }
  }

  lemma InertInfoHasNoTick(info: string)
    requires '`' !in info
    ensures '`' !in InertInfo(info)
  {
    var kept := Kept(Tokens(info));
    KeptMembers(Tokens(info));
    forall t | t in kept
      ensures '`' !in t
    {
      TokenChars(info, t, '`');
    }
    if kept != [] {
      JoinChars(if "ignore" in kept then kept else kept + ["ignore"], '`');
    }
  }

  lemma InertInfoHead(info: string)
    ensures InertInfo(info) != []
    ensures InertInfo(info)[0] == '~' <==> (var kept := Kept(Tokens(info)); kept != [] && "~" <= kept[0])
  {
    var kept := Kept(Tokens(info));
    KeptMembers(Tokens(info));
    if kept != [] {
      var ts := if "ignore" in kept then kept else kept + ["ignore"];
      assert ts[0] == kept[0] && IsToken(kept[0]);
      assert Join(ts)[0] == kept[0][0];
    }
  }

  // ----- Openers -----------------------------------------------------------------------------

  /** A joined list starts with its first token, and a separator ends that token. */
  lemma JoinHead(ts: seq<string>) returns (x: string)
    requires ts != [] && forall t :: t in ts ==> IsToken(t)
    ensures Join(ts) == ts[0] + x && (x == [] || IsSeparator(x[0]))
    ensures Tokens(x) == ts[1..]
  {
    if |ts| == 1 {
      x := [];
      assert ts[0] + x == ts[0] && ts[1..] == [];
    } else {
      x := "," + Join(ts[1..]);
      assert x[1..] == Join(ts[1..]);
      TokensOfJoin(ts[1..]);
    }
  }

  lemma TokensOfWord(w: string, x: string)
    requires forall i :: 0 <= i < |w| ==> !IsSeparator(w[i])
    requires x == [] || IsSeparator(x[0])
    ensures Tokens(w + x) == (if w == [] then [] else [w]) + Tokens(x)
  {
    if w == [] {
      assert w + x == x;
    } else {
      WordOf(w, x);
      assert (w + x)[..|w|] == w && (w + x)[|w|..] == x;
    }
  }

  lemma {:induction false} RunInPrefix(p: string, x: string, c: char)
    requires x == [] || x[0] != c
    ensures LeadingRun(p + x, c) == LeadingRun(p, c)
  {
    if p == [] {
      assert p + x == x;
    } else {
      assert (p + x)[1..] == p[1..] + x;
      RunInPrefix(p[1..], x, c);
    }
  }

  /** The words of a list once its first one has lost some leading characters. */
  function Stripped(ts: seq<string>, k: nat): seq<string>
    requires ts != [] && k <= |ts[0]|
  {
    (if ts[0][k..] == [] then [] else [ts[0][k..]]) + ts[1..]
  }

  lemma StrippedAreTokens(ts: seq<string>, k: nat)
    requires ts != [] && k <= |ts[0]| && forall t :: t in ts ==> IsToken(t)
    ensures forall t :: t in Stripped(ts, k) ==> IsToken(t)
  {
    assert IsToken(ts[0]) && forall t :: t in ts[1..] ==> t in ts;
  }

  /** Taking the leading tildes off a joined list takes them off its first word. */
  lemma JoinBehindTildes(ts: seq<string>)
    requires ts != [] && forall t :: t in ts ==> IsToken(t)
    ensures var k := LeadingRun(ts[0], '~');
            && LeadingRun(Join(ts), '~') == k
            && Join(ts)[k..] == (if k == |ts[0]| && |ts| > 1 then "," else "") + Join(Stripped(ts, k))
  {
    hide Join, Tokens, LeadingRun;
    var x := JoinHead(ts);
    var k := LeadingRun(ts[0], '~');
    RunInPrefix(ts[0], x, '~');
    assert Join(ts)[k..] == ts[0][k..] + x;
    JoinOfStripped(ts, k);
    JoinOfStripped(ts, 0);
    assert ts[0][0..] == ts[0] && IsToken(ts[0]);
    assert ts[0] + x == ts[0] + Rest(ts);
    assert x == (ts[0] + x)[|ts[0]|..] == Rest(ts);
  }

  /** What stands behind the first word. */
  function Rest(ts: seq<string>): string
    requires ts != []
  {
    if |ts| == 1 then "" else "," + Join(ts[1..])
  }

  lemma JoinOfStripped(ts: seq<string>, k: nat)
    requires ts != [] && k <= |ts[0]|
    ensures ts[0][k..] + Rest(ts) == (if k == |ts[0]| && |ts| > 1 then "," else "") + Join(Stripped(ts, k))
    ensures Join(ts) == ts[0] + Rest(ts)
  {
    var us := Stripped(ts, k);
    if k == |ts[0]| {
      assert us == ts[1..];
    } else {
      assert us[0] == ts[0][k..] && us[1..] == ts[1..];
    }
  }

  lemma NoRun(s: string, c: char)
    ensures s == [] || s[0] != c ==> LeadingRun(s, c) == 0 && s[LeadingRun(s, c)..] == s
  {
  }

  // ----- Escapes in info strings -------------------------------------------------------------

  lemma PunctuationSpelled(c: char)
    ensures IsPunctuation(c) <==> c in "!\"#$%&'()*+,-./:;<=>?@[\\]^_`{|}~"
  {
  }

  lemma {:induction false} NothingToResolve(s: string)
    requires '\\' !in s
    ensures Resolved(s) == s
  {
    if s != [] {
      DropMembers(s, 1);
      NothingToResolve(s[1..]);
    }
  }

  predicate IsWord(s: string) {
    forall i :: 0 <= i < |s| ==> !IsSeparator(s[i])
  }

  lemma WordCons(c: char, s: string)
    ensures IsWord([c] + s) <==> !IsSeparator(c) && IsWord(s)
  {
    if IsWord([c] + s) {
      assert ([c] + s)[0] == c && forall i :: 0 <= i < |s| ==> s[i] == ([c] + s)[i + 1];
    }
  }

  lemma ResolvedCons(c: char, s: string)
    requires c != '\\' || s == [] || !IsPunctuation(s[0])
    ensures Resolved([c] + s) == [c] + Resolved(s)
  {
    assert ([c] + s)[1..] == s;
  }

  lemma ResolvedEscape(c: char, s: string)
    requires IsPunctuation(c)
    ensures Resolved(['\\', c] + s) == [c] + Resolved(s)
  {
    assert (['\\', c] + s)[2..] == s;
  }

  /** A word stays one word; if it ends in a lone backslash, that goes with the comma behind it. */
  lemma {:induction false} ResolvedWord(t: string, x: string) returns (w: string)
    requires IsWord(t)
    ensures Resolved(t + "," + x) == w + "," + Resolved(x)
    ensures Resolved(t) == w || Resolved(t) == w + "\\"
    ensures IsWord(w) && IsWord(Resolved(t))
    decreases |t|
  {
    hide Resolved, IsWord;
    if t == [] {
      w := [];
      EmptyWord();
      assert t + "," + x == [','] + x;
      ResolvedCons(',', x);
    } else if t == "\\" {
      w := [];
      EmptyWord();
      assert t + "," + x == ['\\', ','] + x && [] + "," + Resolved(x) == [','] + Resolved(x);
      ResolvedEscape(',', x);
      assert [] + "\\" == "\\";
    } else if t[0] == '\\' && IsPunctuation(t[1]) {
      var c, t' := t[1], t[2..];
      assert t == ['\\', c] + t' && t + "," + x == ['\\', c] + (t' + "," + x);
      assert t == ['\\'] + ([c] + t');
      WordCons('\\', [c] + t');
      WordCons(c, t');
      var w' := ResolvedWord(t', x);
      w := [c] + w';
      WordGrows(c, t', x, w', Resolved(t'), Resolved(t' + "," + x));
      ResolvedEscape(c, t');
      ResolvedEscape(c, t' + "," + x);
    } else {
      var c, t' := t[0], t[1..];
      assert t == [c] + t' && t + "," + x == [c] + (t' + "," + x);
      WordCons(c, t');
      var w' := ResolvedWord(t', x);
      w := [c] + w';
      WordGrows(c, t', x, w', Resolved(t'), Resolved(t' + "," + x));
      ResolvedCons(c, t');
      ResolvedCons(c, t' + "," + x);
    }
  }

  lemma EmptyWord()
    ensures IsWord("") && Resolved("") == "" && IsWord("\\") && Resolved("\\") == "\\"
  {
    assert "\\"[1..] == "";
  }

  lemma WordGrows(c: char, t: string, x: string, w: string, r: string, all: string)
    requires !IsSeparator(c) && IsWord(w) && IsWord(r)
    requires all == w + "," + Resolved(x) && (r == w || r == w + "\\")
    ensures IsWord([c] + w) && IsWord([c] + r)
    ensures [c] + all == [c] + w + "," + Resolved(x) && ([c] + r == [c] + w || [c] + r == [c] + w + "\\")
  {
    hide Resolved, IsWord;
    WordCons(c, w);
    WordCons(c, r);
  }

  ghost predicate HasTarget(ts: seq<string>) {
    exists t :: t in ts && TargetsIgnore(t)
  }

  lemma TargetBeforeBackslash(w: string)
    ensures TargetsIgnore(w + "\\") <==> TargetsIgnore(w)
  {
    var s := w + "\\";
    if "ignore-" <= s {
      assert s[6] == '-';
      assert w[..7] == s[..7];
    }
  }

  /** Some word of the list becomes a target when it is resolved. */
  ghost predicate ResolvesToTarget(ts: seq<string>) {
    exists t :: t in ts && TargetsIgnore(Resolved(t))
  }

  lemma TargetCons(w: string, us: seq<string>)
    ensures HasTarget((if w == [] then [] else [w]) + us) <==> TargetsIgnore(w) || HasTarget(us)
  {
    var all := (if w == [] then [] else [w]) + us;
    if TargetsIgnore(w) {
      assert w != [] && w in all;
    }
    if HasTarget(us) {
      var t :| t in us && TargetsIgnore(t);
      assert t in all;
    }
  }

  lemma ResolvesCons(ts: seq<string>)
    requires ts != []
    ensures ResolvesToTarget(ts) <==> TargetsIgnore(Resolved(ts[0])) || ResolvesToTarget(ts[1..])
  {
    hide TargetsIgnore, Resolved;
    assert ts == [ts[0]] + ts[1..];
    if ResolvesToTarget(ts[1..]) {
      var t :| t in ts[1..] && TargetsIgnore(Resolved(t));
      assert t in ts;
    }
  }

  lemma TokensBehindComma(y: string)
    ensures Tokens("," + y) == Tokens(y) && Resolved("," + y) == "," + Resolved(y)
  {
    assert ("," + y)[1..] == y;
    ResolvedCons(',', y);
  }

  lemma TokenIsWord(t: string)
    requires IsToken(t)
    ensures IsWord(t)
  {
  }

  lemma TokensOfOne(w: string)
    requires IsWord(w)
    ensures Tokens(w) == if w == [] then [] else [w]
  {
    TokensOfWord(w, []);
    assert w + [] == w && Tokens([]) == [];
  }

  /** Resolving a joined list resolves its words one by one. */
  lemma {:induction false} ResolvedJoin(ts: seq<string>)
    requires forall t :: t in ts ==> IsToken(t)
    ensures HasTarget(Tokens(Resolved(Join(ts)))) <==> ResolvesToTarget(ts)
    ensures "ignore" in ts ==> "ignore" in Tokens(Resolved(Join(ts)))
    decreases |ts|
  {
    hide Resolved, Tokens, TargetsIgnore, IsWord, IsToken;
    EmptyWord();
    NothingToResolve("ignore");
    if ts == [] {
      TokensOfOne([]);
    } else {
      assert ts[0] in ts && ts == [ts[0]] + ts[1..];
      TokenIsWord(ts[0]);
      ResolvesCons(ts);
      var y := Join(ts[1..]);
      var w := ResolvedWord(ts[0], y);
      if |ts| == 1 {
        TokensOfOne(Resolved(ts[0]));
        TargetCons(Resolved(ts[0]), []);
        assert Tokens(Resolved(ts[0])) == Tokens(Resolved(ts[0])) + [];
      } else {
        ResolvedJoin(ts[1..]);
        WordThenRest(w, Resolved(y));
        TargetBeforeBackslash(w);
        TargetCons(w, Tokens(Resolved(y)));
        NotIgnore(w);
      }
    }
  }

  lemma WordThenRest(w: string, y: string)
    requires IsWord(w)
    ensures Tokens(w + "," + y) == (if w == [] then [] else [w]) + Tokens(y)
  {
    hide Tokens;
    TokensOfWord(w, "," + y);
    TokensBehindComma(y);
    assert w + "," + y == w + ("," + y);
  }

  lemma NotIgnore(w: string)
    ensures w + "\\" != "ignore"
  {
    assert (w + "\\")[|w|] == '\\';
  }

  // ----- Inertness of what is read -----------------------------------------------------------

  lemma WrittenInertIff(lead: string, ts: seq<string>)
    requires (lead == "" || lead == ",") && "ignore" in ts && forall t :: t in ts ==> IsToken(t)
    ensures Inert(lead + Join(ts)) <==> !HasTarget(ts)
  {
    hide Tokens, Join, TargetsIgnore;
    TokensOfJoin(ts);
    TokensBehindComma(Join(ts));
    assert "" + Join(ts) == Join(ts);
    TextIsOneWord();
  }

  lemma ResolvedInertIff(lead: string, ts: seq<string>)
    requires (lead == "" || lead == ",") && "ignore" in ts && forall t :: t in ts ==> IsToken(t)
    ensures Inert(Resolved(lead + Join(ts))) <==> !ResolvesToTarget(ts)
  {
    hide Tokens, Join, TargetsIgnore, Resolved;
    ResolvedJoin(ts);
    TokensBehindComma(Join(ts));
    TokensBehindComma(Resolved(Join(ts)));
    assert "" + Join(ts) == Join(ts);
    TextIsOneWord();
  }

  lemma TextIsOneWord()
    ensures "ignore" !in Tokens("text")
  {
    TokensOfOne("text");
    assert "text"[0] != "ignore"[0];
  }

  /** The emitted list: what was kept, and `ignore` if it was not among it. */
  function Emitted(kept: seq<string>): seq<string> {
    if "ignore" in kept then kept else kept + ["ignore"]
  }

  /** The words of the emitted list as they are read are the read words, the empty one and `ignore` aside. */
  lemma SameWords(f: Fence, us: seq<string>)
    requires var kept := Kept(Tokens(f.info));
             && kept != []
             && us == if f.ch == '~' then Stripped(Emitted(kept), LeadingRun(kept[0], '~')) else Emitted(kept)
    ensures forall t :: t in us ==> t in ReadWords(f) || t == "ignore"
    ensures forall t :: t in ReadWords(f) ==> t in us || t == []
  {
    hide Tokens, Kept, LeadingRun;
    var kept := Kept(Tokens(f.info));
    var ts := Emitted(kept);
    assert ts[0] == kept[0];
    assert ts[1..] == if "ignore" in kept then kept[1..] else kept[1..] + ["ignore"];
    assert kept == [kept[0]] + kept[1..];
  }

  lemma WordsDecide(f: Fence, us: seq<string>)
    requires forall t :: t in us ==> t in ReadWords(f) || t == "ignore"
    requires forall t :: t in ReadWords(f) ==> t in us || t == []
    ensures HasTarget(us) <==> !WrittenInert(f)
    ensures ResolvesToTarget(us) <==> !ReadInert(f)
  {
    hide ReadWords, Resolved, TargetsIgnore;
    IgnoreIsToken();
    NothingToResolve("ignore");
    NothingToResolve([]);
  }

  lemma IgnoreIsToken()
    ensures IsToken("ignore") && !TargetsIgnore("ignore") && !TargetsIgnore([])
  {
  }

  /** What is read of an emitted list is a joined list again, maybe behind a comma. */
  lemma ListIsRead(f: Fence) returns (lead: string, us: seq<string>)
    requires f.ch == '~' || (f.ch == '`' && '`' !in f.info)
    requires Kept(Tokens(f.info)) != []
    ensures var info := InertInfo(f.info); info[LeadingRun(info, f.ch)..] == lead + Join(us)
    ensures (lead == "" || lead == ",") && "ignore" in us && forall t :: t in us ==> IsToken(t)
    ensures HasTarget(us) <==> !WrittenInert(f)
    ensures ResolvesToTarget(us) <==> !ReadInert(f)
  {
    hide Tokens, Kept, LeadingRun, Join, Resolved, TargetsIgnore, WrittenInert, ReadInert, HasTarget, ResolvesToTarget;
    var kept := Kept(Tokens(f.info));
    KeptMembers(Tokens(f.info));
    var ts := Emitted(kept);
    IgnoreIsToken();
    assert ts[0] == kept[0];
    if f.ch == '~' {
      lead, us := TildesTaken(ts);
    } else {
      lead, us := "", ts;
      InertInfoHasNoTick(f.info);
      NoRun(InertInfo(f.info), f.ch);
      assert "" + Join(ts) == Join(ts);
    }
    SameWords(f, us);
    WordsDecide(f, us);
  }

  lemma TildesTaken(ts: seq<string>) returns (lead: string, us: seq<string>)
    requires ts != [] && "ignore" in ts && forall t :: t in ts ==> IsToken(t)
    ensures Join(ts)[LeadingRun(Join(ts), '~')..] == lead + Join(us)
    ensures us == Stripped(ts, LeadingRun(ts[0], '~'))
    ensures (lead == "" || lead == ",") && "ignore" in us && forall t :: t in us ==> IsToken(t)
  {
    hide LeadingRun, Join, Stripped, IsToken;
    var k := LeadingRun(ts[0], '~');
    us := Stripped(ts, k);
    lead := if k == |ts[0]| && |ts| > 1 then "," else "";
    JoinBehindTildes(ts);
    StrippedAreTokens(ts, k);
    IgnoreStays(ts, k);
  }

  /** Inertness of the part of an emitted info string that is read as one, with escapes and without. */
  lemma InfoIsRead(f: Fence)
    requires f.ch == '~' || (f.ch == '`' && '`' !in f.info)
    ensures var info := InertInfo(f.info);
            var read := info[LeadingRun(info, f.ch)..];
            && (Inert(read) <==> WrittenInert(f))
            && (Inert(Resolved(read)) <==> ReadInert(f))
  {
    hide Tokens, Kept, LeadingRun, Join, Inert, Resolved, TargetsIgnore, WrittenInert, ReadInert;
    if Kept(Tokens(f.info)) == [] {
      InertInfoIsInert(f.info);
      InertInfoHead(f.info);
      NoRun(InertInfo(f.info), f.ch);
      FixedInfos();
      WordsDecide(f, []);
    } else {
      var lead, us := ListIsRead(f);
      WrittenInertIff(lead, us);
      ResolvedInertIff(lead, us);
    }
  }

  lemma FixedInfos()
    ensures Resolved("text") == "text" && Resolved("rust,ignore") == "rust,ignore"
  {
    hide Resolved;
    NothingToResolve("text");
    NothingToResolve("rust,ignore");
  }

  lemma IgnoreStays(ts: seq<string>, k: nat)
    requires ts != [] && "ignore" in ts && k == LeadingRun(ts[0], '~')
    ensures "ignore" in Stripped(ts, k)
  {
    hide LeadingRun;
    assert ts == [ts[0]] + ts[1..];
    if ts[0] == "ignore" {
      NoRun(ts[0], '~');
      assert ts[0][k..] == "ignore";
    }
  }

  // ----- Openers, read back ------------------------------------------------------------------

  /**
    The emitted opener is read back as an opener of the same character. It keeps its length exactly
    when it is readable. Its info string is inert, as written or with its escapes resolved, exactly
    when no word that is read from it is a target, as written or with its escapes resolved.
   */
  lemma OpenerIsRead(line: string)
    requires FenceMarker(line).Some?
    ensures var f := FenceMarker(line).value;
            var m := FenceMarker(Opener(f));
            && m.Some? && m.value.indent == f.indent && m.value.ch == f.ch && m.value.len >= f.len
            && (m.value.len == f.len <==> Readable(f))
            && (Inert(m.value.info) <==> WrittenInert(f))
            && (Inert(Resolved(m.value.info)) <==> ReadInert(f))
  {
    hide InertInfo, FenceMarker, LeadingRun, Tokens, Kept, Inert, Resolved, WrittenInert, ReadInert;
    var f := FenceMarker(line).value;
    MarkerParts(line);
    var info := InertInfo(f.info);
    InertInfoHead(f.info);
    if f.ch == '`' {
      InertInfoHasNoTick(f.info);
    }
    MarkerOfParts(f.indent, f.ch, f.len, info, Opener(f));
    InfoIsRead(f);
    NoRun(info, f.ch);
    if f.ch == '~' && info[0] == '~' {
      assert LeadingRun(info, '~') > 0;
    }
  }

  /** Unless a tilde fence's first word hides a target behind tildes, no word read is one as written. */
  lemma WrittenInertUnlessHidden(f: Fence)
    ensures var kept := Kept(Tokens(f.info));
            WrittenInert(f) <==>
            !(f.ch == '~' && kept != [] && TargetsIgnore(kept[0][LeadingRun(kept[0], '~')..]))
  {
    hide Tokens, Kept, LeadingRun, TargetsIgnore;
    var kept := Kept(Tokens(f.info));
    KeptMembers(Tokens(f.info));
    if f.ch == '~' && kept != [] {
      assert ReadWords(f)[0] == kept[0][LeadingRun(kept[0], '~')..];
      assert forall t :: t in kept[1..] ==> t in kept;
    }
  }
}
