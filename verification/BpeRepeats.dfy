/**
 Words in which the marker stands behind a '>' that may be its own repetition, "</w></w>".  The
 closing '>' is used first; then the 'w' of a copy behind, if there is one, is joined to what follows.
 */
module BpeRepeats {
  import opened BpeMerges
  import opened BpeAgreement
  import opened BpeTrained
  import opened BpeMarker
  import opened BpeBreaking

  /** The closing '>' and the character before it. */
  function First(p: char): MergeOp {
    MergeOp([p], "></w>", [p] + "></w>")
  }

  /** What follows begins like one more copy of the marker. */
  predicate Copies(t: seq<string>) {
    |t| >= 3 && t[0] == "<" && t[1] == "/" && t[2] == "w"
  }

  const Angles := [MergeOp("<", "/", "</"), MergeOp("</", "w", "</w"), MergeOp(">", "</w", "></w")]

  const Fuse := MergeOp("></w", ">", "></w>")

  /** The stretch before and after the first `r` of `Angles`. */
  function Mid(r: nat): seq<string>
    requires r <= 3
  {
    if r == 0 then [">", "<", "/", "w", ">"]
    else if r == 1 then [">", "</", "w", ">"]
    else if r == 2 then [">", "</w", ">"]
    else ["></w", ">"]
  }

  lemma MidPass(r: nat)
    requires r < 3
    ensures HasPair(Angles[r], Mid(r)) && Pass(Angles[r], Mid(r)) == Mid(r + 1) && Angles[r].Made()
    ensures Mid(r)[0] != Angles[r].right && (r < 2 ==> Mid(r)[|Mid(r)| - 1] != Angles[r].left)
  {
    var at := if r == 2 then 0 else 1;
    assert PairAt(Angles[r], Mid(r), at);
    PassOnce(Angles[r], Mid(r), at);
  }

  // ----- The word with the stretch inside

  lemma AngleStep(words: set<string>, ms: seq<MergeOp>, r: nat, v: string, u: seq<string>, t: seq<string>)
    requires r < 3 && LearnedFrom(ms, words) && v in words
    requires Replay(ms, InitialSymbols(v)) == u + Mid(r) + t
    requires r == 2 && t != [] ==> t[0] != "</w"
    ensures LearnedFrom(ms + [Angles[r]], words)
    ensures Replay(ms + [Angles[r]], InitialSymbols(v)) == Pass(Angles[r], u) + Mid(r + 1) + Pass(Angles[r], t)
  {
    MidPass(r);
    PairInside(Angles[r], u, Mid(r), t);
    OneMoreLearned(words, ms, Angles[r], v);
    OneMore(ms, Angles[r], InitialSymbols(v));
    PassAround(Angles[r], u, Mid(r), t);
  }

  /** What follows does not come to begin with "</w" if it has been no copy of the marker. */
  lemma NoCopy(t: seq<string>)
    requires !Copies(t) && (t != [] ==> t[0] != "</" && t[0] != "</w")
    ensures var t2 := Pass(Angles[1], Pass(Angles[0], t)); t2 != [] ==> t2[0] != "</w"
  {
    if t != [] {
      var t1 := Pass(Angles[0], t);
      PassUnfolds(Angles[0], t);
      if |t| >= 2 && t[0] == "<" && t[1] == "/" {
        assert t1 == ["</"] + Pass(Angles[0], t[2..]);
        if |t| > 2 { PassUnfolds(Angles[0], t[2..]); }
        assert |t| > 2 ==> t1[1] != "w";
      }
      PassUnfolds(Angles[1], t1);
    }
  }

  // ----- The word that shows it

  function Shows(p: char): string {
    [p] + "></w>z"
  }

  lemma ShowsAtFirst(p: char)
    ensures InitialSymbols(Shows(p)) == [[p]] + Mid(0) + ["z</w>"]
  {
    SymbolsAround([p], '>', "z", true);
    assert Shows(p) == [p] + Closing('>') + "z" && ['z'] + END_OF_WORD == "z</w>" && Base([p], false) == [[p]];
  }

  lemma ShowsStep(ms: seq<MergeOp>, p: char, m: MergeOp, mid: seq<string>)
    requires Replay(ms, InitialSymbols(Shows(p))) == [[p]] + mid + ["z</w>"]
    requires mid != [] && mid[0] != m.right && (mid[|mid| - 1] != m.left || m.right != "z</w>")
    ensures Replay(ms + [m], InitialSymbols(Shows(p))) == [[p]] + Pass(m, mid) + ["z</w>"]
  {
    OneMore(ms, m, InitialSymbols(Shows(p)));
    PassAround(m, [[p]], mid, ["z</w>"]);
  }

  // ----- The agreement broken

  lemma AnglesBreak(words: set<string>, ms: seq<MergeOp>, p: char, v: string, u: seq<string>, t: seq<string>)
    requires LearnedFrom(ms, words) && v in words && ms != [] && ms[0] == First(p)
    requires Replay(ms, InitialSymbols(v)) == u + Mid(0) + t
    requires !Copies(t) && (t != [] ==> t[0] != "</" && t[0] != "</w")
    requires Replay(ms, InitialSymbols(Shows(p))) == [[p]] + Mid(0) + ["z</w>"]
    ensures !AlwaysAgree(words)
  {
    var a := Angles;
    NoCopy(t);
    MidPass(0);
    MidPass(1);
    MidPass(2);
    hide Replay, LearnedFrom, AlwaysAgree, InitialSymbols, Pass;
    AngleStep(words, ms, 0, v, u, t);
    ShowsStep(ms, p, a[0], Mid(0));
    AngleStep(words, ms + [a[0]], 1, v, Pass(a[0], u), Pass(a[0], t));
    ShowsStep(ms + [a[0]], p, a[1], Mid(1));
    AngleStep(words, ms + [a[0]] + [a[1]], 2, v, Pass(a[1], Pass(a[0], u)), Pass(a[1], Pass(a[0], t)));
    ShowsStep(ms + [a[0]] + [a[1]], p, a[2], Mid(2));
    FuseBreaks(words, ms + [a[0]] + [a[1]] + [a[2]], p, v, Pass(a[2], Pass(a[1], Pass(a[0], u))),
               Pass(a[2], Pass(a[1], Pass(a[0], t))));
  }

  lemma FuseBreaks(words: set<string>, ms: seq<MergeOp>, p: char, v: string, u: seq<string>, t: seq<string>)
    requires LearnedFrom(ms, words) && v in words && ms != [] && ms[0] == First(p)
    requires Replay(ms, InitialSymbols(v)) == u + Mid(3) + t
    requires Replay(ms, InitialSymbols(Shows(p))) == [[p]] + Mid(3) + ["z</w>"]
    ensures !AlwaysAgree(words)
  {
    assert PairAt(Fuse, Mid(3), 0);
    PairInside(Fuse, u, Mid(3), t);
    OneMoreLearned(words, ms, Fuse, v);
    ShowsStep(ms, p, Fuse, Mid(3));
    PassOnPair(Fuse);
    hide Replay, LearnedFrom, AlwaysAgree, InitialSymbols, Pass;
    assert PairAt((ms + [Fuse])[0], [[p]] + ["></w>"] + ["z</w>"], 0);
    PairLeftBreaks(words, ms + [Fuse], Shows(p), 0, 0);
  }

  /** With the closing pair merged first and a copy of the marker behind the stretch out of the way. */
  lemma AngleBreaks(words: set<string>, w: string, v: string, i: nat)
    requires w in words && v in words && ClosesInside(w, v, i) && v[i] == '>' && i + 6 < |v|
    requires var t := Pass(First(w[|w| - 2]), InitialSymbols(v[i + 5..]));
             && (t != [] ==> t[0] != "</" && t[0] != "</w")
             && (Copies(t) ==> |t| > 3 && t[3] != ">" && t[3] != "")
    ensures !AlwaysAgree(words)
  {
    var p, s := w[|w| - 2], InitialSymbols(v);
    var f, u, t := First(p), s[..i], Pass(First(p), InitialSymbols(v[i + 5..]));
    FirstLearned(words, w);
    FirstAround(v, i, p);
    FirstShows(p);
    if Copies(t) {
      AwayBreaks(words, p, v, Pass(f, u), t);
    } else {
      hide Replay, LearnedFrom, AlwaysAgree, InitialSymbols, Pass;
      AnglesBreak(words, [f], p, v, Pass(f, u), t);
    }
  }

  lemma FirstLearned(words: set<string>, w: string)
    requires w in words && |w| >= 2 && w[|w| - 1] == '>'
    ensures LearnedFrom([First(w[|w| - 2])], words)
  {
    var f := First(w[|w| - 2]);
    assert ['>'] + END_OF_WORD == "></w>";
    assert PairAt(f, InitialSymbols(w), |w| - 2);
    assert Replay([], InitialSymbols(w)) == InitialSymbols(w);
    OneMoreLearned(words, [], f, w);
    assert [] + [f] == [f];
  }

  lemma FirstAround(v: string, i: nat, p: char)
    requires i + 6 < |v| && v[i] == '>' && MarkerAt(v, i + 1)
    ensures var f := First(p);
            Replay([f], InitialSymbols(v))
            == Pass(f, InitialSymbols(v)[..i]) + Mid(0) + Pass(f, InitialSymbols(v[i + 5..]))
  {
    var f, s, y := First(p), InitialSymbols(v), InitialSymbols(v[i + 5..]);
    MiddleInside(v, i);
    assert s[i + 5..] == y && y[0] == [v[i + 5]] && Middle('>', false, 0) == Mid(0);
    PassAround(f, s[..i], Mid(0), y);
    PassIdle(f, Mid(0));
    OneMore([], f, s);
    assert Replay([], s) == s && [] + [f] == [f];
  }

  lemma FirstShows(p: char)
    ensures Replay([First(p)], InitialSymbols(Shows(p))) == [[p]] + Mid(0) + ["z</w>"]
  {
    ShowsAtFirst(p);
    PassIdle(First(p), Mid(0));
    ShowsStep([], p, First(p), Mid(0));
    assert [] + [First(p)] == [First(p)];
  }

  /** The copy's 'w' is joined to what is behind it. */
  lemma AwayBreaks(words: set<string>, p: char, v: string, u: seq<string>, t: seq<string>)
    requires LearnedFrom([First(p)], words) && v in words
    requires Replay([First(p)], InitialSymbols(v)) == u + Mid(0) + t
    requires Copies(t) && |t| > 3 && t[3] != ">" && t[3] != ""
    requires Replay([First(p)], InitialSymbols(Shows(p))) == [[p]] + Mid(0) + ["z</w>"]
    ensures !AlwaysAgree(words)
  {
    var f, m := First(p), MergeOp("w", t[3], "w" + t[3]);
    var s := InitialSymbols(v);
    assert PairAt(m, u + Mid(0) + t, |u + Mid(0)| + 2);
    OneMoreLearned(words, [f], m, v);
    OneMore([f], m, s);
    PassAround(m, u, Mid(0), t);
    PassIdle(m, Mid(0));
    ShowsStep([f], p, m, Mid(0));
    Away(m, t);
    hide Replay, LearnedFrom, AlwaysAgree, InitialSymbols, Pass;
    AnglesBreak(words, [f] + [m], p, v, Pass(m, u), Pass(m, t));
  }

  lemma Away(m: MergeOp, t: seq<string>)
    requires Copies(t) && |t| > 3 && m == MergeOp("w", t[3], "w" + t[3]) && t[3] != ""
    ensures var t2 := Pass(m, t); !Copies(t2) && t2 != [] && t2[0] == "<"
  {
    PassUnfolds(m, t);
    PassUnfolds(m, t[1..]);
    PassUnfolds(m, t[2..]);
    assert t[1..][1..] == t[2..];
    var rest := Pass(m, t[2..][2..]);
    assert Pass(m, t) == ["<"] + (["/"] + (["w" + t[3]] + rest));
  }

  // ----- Wherever the stretch stands

  /** The first merge joins at most the last two symbols of what follows. */
  lemma FirstPass(p: char, y: string)
    requires |y| >= 2
    ensures var t, n := Pass(First(p), InitialSymbols(y)), |y| - 2;
            t == if y[n] == p && y[n + 1] == '>' then InitialSymbols(y)[..n] + [First(p).merged] else InitialSymbols(y)
  {
    var f, s, n := First(p), InitialSymbols(y), |y| - 2;
    assert forall j: nat :: j < |y| - 1 ==> |s[j]| == 1;
    assert s[n] == [y[n]] && s[n + 1] == [y[n + 1]] + END_OF_WORD;
    SameSymbol(y[n], p);
    SameSymbol(y[n + 1], '>');
    assert ['>'] + END_OF_WORD == "></w>";
    hide InitialSymbols, Pass;
    if y[n] == p && y[n + 1] == '>' {
      PassOnce(f, s, n);
      assert s[n + 2..] == [];
    } else {
      assert forall j: nat :: !PairAt(f, s, j);
      PassIdle(f, s);
    }
  }

  lemma SameSymbol(d: char, e: char)
    ensures [d] == [e] <==> d == e
    ensures [d] + END_OF_WORD == [e] + END_OF_WORD <==> d == e
  {
    assert ([d] + END_OF_WORD)[0] == d && ([e] + END_OF_WORD)[0] == e;
  }

  /** Where it repeats itself with more to follow, its last copy is enough. */
  lemma RepeatBreaks(words: set<string>, w: string, v: string, i: nat)
    requires w in words && v in words && ClosesInside(w, v, i) && v[i] == '>' && i + 6 < |v|
    ensures !AlwaysAgree(words)
    decreases |v| - i
  {
    var y := v[i + 5..];
    if |y| >= 5 && y[..4] == END_OF_WORD {
      assert v[i + 5..i + 9] == y[..4];
      assert v[i + 4] == v[i + 1..i + 5][3];
      if |y| >= 6 {
        RepeatBreaks(words, w, v, i + 4);
      } else if v[i + 9] != '>' {
        OncePlaceBreaks(words, w, v, i + 4);
      } else {
        CopyOnly('>', y);
        AngleBreaks(words, v, v, i);
      }
    } else {
      CopyOnly(w[|w| - 2], y);
      AngleBreaks(words, w, v, i);
    }
  }

  lemma CopyOnly(p: char, y: string)
    requires |y| >= 2
    requires |y| >= 5 && y[..4] == END_OF_WORD ==> |y| == 5 && p == y[3] == y[4] == '>'
    ensures var t := Pass(First(p), InitialSymbols(y));
            && t != [] && t[0] != "</" && t[0] != "</w"
            && (Copies(t) ==> |t| > 3 && t[3] != ">" && t[3] != "")
  {
    FirstPass(p, y);
  }
}
