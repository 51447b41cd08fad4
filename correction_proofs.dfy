/** Why the splice pass works right to left: when the spans are in bounds,
    sorted and disjoint, every edit happens to the right of the spans still
    waiting, so their offsets keep pointing into the original text. */
module CorrectionProofs {
  import opened PySlice
  import opened Corrections

  /** `w` occurs in `s` starting at position `p`. */
  predicate Occurs(s: string, p: int, w: string)
  {
    0 <= p && p + |w| <= |s| && s[p..p + |w|] == w
  }

  /* Proof helpers: small facts about strings and slices, not results about
     the model. Each is proved on its own, so that the proofs below do not
     have to rediscover them among many other facts. */

  /** Regrouping five strings; used by `PiecesSnoc` and `TwoCorrectionsExample`
      to split off the last gap and piece. */
  lemma Regroup(a: string, b: string, c: string, d: string, e: string)
    ensures a + b + (c + d + e) == (a + b + c) + d + e
  {
  }

  /** An occurrence in a tail is an occurrence in `head + tail`, shifted by
      `|head|`; used by `PieceLandsAtNext` to move the induction hypothesis. */
  lemma ShiftedSlice(r: string, head: string, tail: string, q: int, p: int, w: string)
    requires r == head + tail && p == |head| + q
    requires Occurs(tail, q, w)
    ensures Occurs(r, p, w)
  {
    assert r[p..p + |w|] == tail[q..q + |w|];
  }

  /** Associativity of concatenation; used by `ReverseSpliceIsInterleave` to
      reattach the last piece after the recursive call. */
  lemma Assoc(a: string, b: string, c: string)
    ensures a + b + c == a + (b + c)
  {
  }

  /** `w` occurs right after `head` in `head + w + tail`; used by
      `PieceLandsAtFirst` for the first piece. */
  lemma MiddleSlice(r: string, head: string, w: string, tail: string, p: int)
    requires r == head + w + tail && p == |head|
    ensures Occurs(r, p, w)
  {
    assert r[p..p + |w|] == (head + w)[p..p + |w|];
  }

  /** A slice of a prefix is a slice of the whole; used by `PiecesSnoc` to read
      the first gap inside the text cut at the last span. */
  lemma SliceOfPrefix(s: string, o: int, i: int, j: int)
    requires 0 <= i <= j <= o <= |s|
    ensures s[..o][i..j] == s[i..j]
  {
  }

  /** One step on an in-bounds span: the text before `offset` is kept, the
      wrapped first candidate starts at `offset`, and the text after the span
      follows it. */
  lemma ApplyMatchInBounds(text: string, m: Match)
    requires InBounds(m, |text|) && m.replacements != []
    ensures var r, w := ApplyMatch(text, m), Wrapped(m);
      && r == Success(text[..m.offset] + (w + text[End(m)..]))
      && |r.value| == |text| + Delta(m)
      && r.value[..m.offset] == text[..m.offset]
      && r.value[m.offset..m.offset + |w|] == w
      && r.value[m.offset + |w|..] == text[End(m)..]
  {
    var w := Wrapped(m);
    assert Take(text, m.offset) == text[..m.offset];
    assert Drop(text, End(m)) == text[End(m)..];
    assert ApplyMatch(text, m) == Success(Take(text, m.offset) + w + Drop(text, End(m)));
    assert text[..m.offset] + w + text[End(m)..] == text[..m.offset] + (w + text[End(m)..]);
  }

  /** The growth of the first `k` pieces, peeled at the first one. */
  lemma SumDeltaPrefix(ms: seq<Match>, k: int)
    requires Suggested(ms) && 0 < k <= |ms|
    ensures Suggested(ms[1..]) && Suggested(ms[..k]) && Suggested(ms[1..][..k - 1])
    ensures SumDelta(ms[..k]) == Delta(ms[0]) + SumDelta(ms[1..][..k - 1])
  {
    assert forall i :: 0 <= i < |ms| - 1 ==> ms[1..][i] == ms[i + 1];
    assert forall i :: 0 <= i < k ==> ms[..k][i] == ms[i];
    assert ms[..k][1..] == ms[1..][..k - 1];
  }

  /** A layout that fits before `n` also fits before any later position. */
  lemma {:induction false} FitsWiden(ms: seq<Match>, from: int, n: int, n': int)
    requires Fits(ms, from, n) && n <= n'
    ensures Fits(ms, from, n')
    decreases |ms|
  {
    if ms != [] {
      FitsWiden(ms[1..], End(ms[0]), n, n');
    }
  }

  /** Dropping the last span leaves a layout that ends before that span begins. */
  lemma {:induction false} FitsInit(ms: seq<Match>, from: int, n: int)
    requires Fits(ms, from, n) && ms != []
    ensures var last := ms[|ms| - 1];
      && from <= last.offset
      && 0 <= last.length
      && End(last) <= n
      && Fits(ms[..|ms| - 1], from, last.offset)
    decreases |ms|
  {
    if |ms| > 1 {
      var init, rest := ms[..|ms| - 1], ms[1..];
      assert rest[|rest| - 1] == ms[|ms| - 1];
      assert init[1..] == rest[..|rest| - 1];
      FitsInit(rest, End(ms[0]), n);
    }
  }

  /** The span-by-span layout is the pairwise one: every span in bounds and
      no later than `from`, and each span ending before every later one begins. */
  lemma {:induction false} FitsPairwise(ms: seq<Match>, from: int, n: int)
    requires 0 <= from
    ensures Fits(ms, from, n) <==>
      && from <= n
      && (forall k :: 0 <= k < |ms| ==> from <= ms[k].offset && InBounds(ms[k], n))
      && (forall j, k :: 0 <= j < k < |ms| ==> End(ms[j]) <= ms[k].offset)
    decreases |ms|
  {
    if ms != [] && from <= ms[0].offset && 0 <= ms[0].length {
      var rest := ms[1..];
      FitsPairwise(rest, End(ms[0]), n);
      if Fits(ms, from, n) {
        forall k | 0 <= k < |ms|
          ensures from <= ms[k].offset && InBounds(ms[k], n)
        {
          if k > 0 { assert ms[k] == rest[k - 1]; }
        }
        forall j, k | 0 <= j < k < |ms|
          ensures End(ms[j]) <= ms[k].offset
        {
          assert ms[k] == rest[k - 1];
          if j > 0 { assert ms[j] == rest[j - 1]; }
        }
      } else {
        assert !Fits(rest, End(ms[0]), n);
        if End(ms[0]) <= n {
          if forall k :: 0 <= k < |rest| ==> End(ms[0]) <= rest[k].offset && InBounds(rest[k], n) {
            var j, k :| 0 <= j < k < |rest| && End(rest[j]) > rest[k].offset;
            assert ms[j + 1] == rest[j] && ms[k + 1] == rest[k];
          } else {
            var k :| 0 <= k < |rest| && !(End(ms[0]) <= rest[k].offset && InBounds(rest[k], n));
            assert ms[k + 1] == rest[k];
          }
        }
      }
    }
  }

  /** For a text of any length the two readings of the layout agree. */
  lemma LayoutIsFits(ms: seq<Match>, n: int)
    requires 0 <= n
    ensures Layout(ms, n) <==> Fits(ms, 0, n)
  {
    FitsPairwise(ms, 0, n);
  }

  /** Text appended after the last span passes through the assembly untouched. */
  lemma {:induction false} PiecesFrame(p: string, s: string, ms: seq<Match>, from: int)
    requires Fits(ms, from, |p|) && Suggested(ms) && 0 <= from
    ensures Fits(ms, from, |p + s|)
    ensures Pieces(p + s, ms, from) == Pieces(p, ms, from) + s
    decreases |ms|
  {
    FitsWiden(ms, from, |p|, |p + s|);
    if ms == [] {
      assert (p + s)[from..] == p[from..] + s;
    } else {
      assert Suggested(ms[1..]) by { assert forall k :: 0 <= k < |ms| - 1 ==> ms[1..][k] == ms[k + 1]; }
      assert (p + s)[from..ms[0].offset] == p[from..ms[0].offset];
      PiecesFrame(p, s, ms[1..], End(ms[0]));
    }
  }

  /** The left-to-right assembly, split at its last span: the assembly of the
      other spans over the text before it, then its piece, then the tail. */
  lemma {:induction false} PiecesSnoc(text: string, ms: seq<Match>, from: int)
    requires Fits(ms, from, |text|) && Suggested(ms) && ms != [] && 0 <= from
    ensures var last, init := ms[|ms| - 1], ms[..|ms| - 1];
      && from <= last.offset <= End(last) <= |text|
      && Fits(init, from, |text[..last.offset]|)
      && Suggested(init)
      && Pieces(text, ms, from)
         == Pieces(text[..last.offset], init, from) + Wrapped(last) + text[End(last)..]
    decreases |ms|
  {
    var last, init := ms[|ms| - 1], ms[..|ms| - 1];
    var o := last.offset;
    FitsInit(ms, from, |text|);
    assert Suggested(init) by { assert forall k :: 0 <= k < |init| ==> init[k] == ms[k]; }
    if |ms| == 1 {
      assert ms[1..] == [];
      assert text[..o][from..] == text[from..o];
    } else {
      var rest := ms[1..];
      assert Suggested(rest) by { assert forall k :: 0 <= k < |rest| ==> rest[k] == ms[k + 1]; }
      assert rest[|rest| - 1] == last;
      assert rest[..|rest| - 1] == init[1..];
      PiecesSnoc(text, rest, End(ms[0]));
      var w0, w := Wrapped(ms[0]), Wrapped(last);
      var middle := Pieces(text[..o], init[1..], End(ms[0]));
      assert Pieces(text, rest, End(ms[0])) == middle + w + text[End(last)..];
      SliceOfPrefix(text, o, from, ms[0].offset);
      assert Pieces(text[..o], init, from) == text[from..ms[0].offset] + w0 + middle;
      assert Pieces(text, ms, from) == text[from..ms[0].offset] + w0 + (middle + w + text[End(last)..]);
      Regroup(text[from..ms[0].offset], w0, middle, w, text[End(last)..]);
    }
  }

  /** The main property: for in-bounds, sorted, disjoint matches that all
      offer a candidate, the right-to-left pass yields the gaps and the
      corrected pieces interleaved in their original order. */
  lemma {:induction false} ReverseSpliceIsInterleave(text: string, ms: seq<Match>)
    requires WellFormed(text, ms)
    ensures SpliceAll(text, ms) == Success(Pieces(text, ms, 0))
    decreases |ms|
  {
    if ms != [] {
      var n := |ms| - 1;
      var last, init := ms[n], ms[..n];
      PiecesSnoc(text, ms, 0);
      var suffix := Wrapped(last) + text[End(last)..];
      var t1 := text[..last.offset] + suffix;
      ApplyMatchInBounds(text, last);
      assert SpliceAll(text, ms) == SpliceAll(t1, init);
      PiecesFrame(text[..last.offset], suffix, init, 0);
      ReverseSpliceIsInterleave(t1, init);
      Assoc(Pieces(text[..last.offset], init, 0), Wrapped(last), text[End(last)..]);
    }
  }

  /** Under the same conditions the result grows by `|r| + 4 - length` per match. */
  lemma SpliceLength(text: string, ms: seq<Match>)
    requires WellFormed(text, ms)
    ensures SpliceAll(text, ms).Success?
    ensures |SpliceAll(text, ms).value| == |text| + SumDelta(ms)
  {
    ReverseSpliceIsInterleave(text, ms);
  }

  /** Under the same conditions the text before the first span and after the
      last span comes back unchanged. */
  lemma SpliceKeepsEnds(text: string, ms: seq<Match>)
    requires WellFormed(text, ms) && ms != []
    ensures var r := SpliceAll(text, ms);
      var first, last := ms[0], ms[|ms| - 1];
      && r.Success?
      && first.offset <= |r.value|
      && |text| - End(last) <= |r.value|
      && r.value[..first.offset] == text[..first.offset]
      && r.value[|r.value| - (|text| - End(last))..] == text[End(last)..]
  {
    ReverseSpliceIsInterleave(text, ms);
    PiecesSnoc(text, ms, 0);
  }

  /** The k-th corrected piece of the assembly from `from` starts at its
      original offset, shifted by the growth of the pieces before it. */
  ghost predicate PieceLandsAt(text: string, ms: seq<Match>, from: int, k: int)
    requires Fits(ms, from, |text|) && Suggested(ms) && 0 <= from && 0 <= k < |ms|
  {
    assert Suggested(ms[..k]) by { assert forall i :: 0 <= i < k ==> ms[..k][i] == ms[i]; }
    Occurs(Pieces(text, ms, from), ms[k].offset - from + SumDelta(ms[..k]), Wrapped(ms[k]))
  }

  /** The first piece of the assembly comes right after the first gap. */
  lemma PieceLandsAtFirst(text: string, ms: seq<Match>, from: int)
    requires Fits(ms, from, |text|) && Suggested(ms) && 0 <= from && ms != []
    ensures PieceLandsAt(text, ms, from, 0)
  {
    var w0, gap := Wrapped(ms[0]), text[from..ms[0].offset];
    var tail := Pieces(text, ms[1..], End(ms[0]));
    assert ms[..0] == [];
    MiddleSlice(Pieces(text, ms, from), gap, w0, tail, ms[0].offset - from + SumDelta(ms[..0]));
  }

  /** Where the k-th piece lands, given where it lands in the assembly of the
      remaining spans. */
  lemma PieceLandsAtNext(text: string, ms: seq<Match>, from: int, k: int)
    requires Fits(ms, from, |text|) && Suggested(ms) && 0 <= from && 0 < k < |ms|
    requires Suggested(ms[1..]) && PieceLandsAt(text, ms[1..], End(ms[0]), k - 1)
    ensures PieceLandsAt(text, ms, from, k)
  {
    var w0, gap := Wrapped(ms[0]), text[from..ms[0].offset];
    var rest := ms[1..];
    var tail := Pieces(text, rest, End(ms[0]));
    var r := Pieces(text, ms, from);
    assert r == (gap + w0) + tail;
    var m, w := rest[k - 1], Wrapped(ms[k]);
    var q := m.offset - End(ms[0]) + SumDelta(rest[..k - 1]);
    var p := ms[k].offset - from + SumDelta(ms[..k]);
    SumDeltaPrefix(ms, k);
    assert m == ms[k];
    assert p == |gap + w0| + q;
    ShiftedSlice(r, gap + w0, tail, q, p, w);
  }

  lemma {:induction false} PieceAt(text: string, ms: seq<Match>, from: int, k: int)
    requires Fits(ms, from, |text|) && Suggested(ms) && 0 <= from
    requires 0 <= k < |ms|
    ensures PieceLandsAt(text, ms, from, k)
    decreases k
  {
    if k == 0 {
      PieceLandsAtFirst(text, ms, from);
    } else {
      assert Suggested(ms[1..]) by { assert forall i :: 0 <= i < |ms| - 1 ==> ms[1..][i] == ms[i + 1]; }
      PieceAt(text, ms[1..], End(ms[0]), k - 1);
      PieceLandsAtNext(text, ms, from, k);
    }
  }

  /** Each corrected piece of the spliced text sits at its original offset
      plus the growth of the corrections to its left. */
  lemma SpliceWrappedAt(text: string, ms: seq<Match>, k: int)
    requires WellFormed(text, ms)
    requires 0 <= k < |ms|
    ensures Suggested(ms[..k])
    ensures SpliceAll(text, ms).Success?
    ensures Occurs(SpliceAll(text, ms).value, ms[k].offset + SumDelta(ms[..k]), Wrapped(ms[k]))
  {
    ReverseSpliceIsInterleave(text, ms);
    PieceAt(text, ms, 0, k);
  }

  /** Only the first candidate of each match can influence the outcome. */
  lemma {:induction false} OnlyFirstReplacementMatters(text: string, ms: seq<Match>, ms': seq<Match>)
    requires |ms| == |ms'|
    requires forall k :: 0 <= k < |ms| ==> SameChoice(ms[k], ms'[k])
    ensures SpliceAll(text, ms) == SpliceAll(text, ms')
    decreases |ms|
  {
    if ms != [] {
      var n := |ms| - 1;
      assert SameChoice(ms[n], ms'[n]);
      assert ApplyMatch(text, ms[n]) == ApplyMatch(text, ms'[n]);
      match ApplyMatch(text, ms[n]) {
        case Failure(_) =>
        case Success(t) =>
          OnlyFirstReplacementMatters(t, ms[..n], ms'[..n]);
      }
    }
  }

  /** A misspelled first word gets its correction between markers. */
  lemma MarkerWrappingExample()
    ensures SpliceAll("Ths is a test", [Match(0, 3, [Replacement("This")])])
            == Success("**This** is a test")
  {
    var ms := [Match(0, 3, [Replacement("This")])];
    var text := "Ths is a test";
    assert Take(text, 0) == [];
    assert Drop(text, 3) == " is a test";
    assert Wrap("This") == "**This**";
    assert ApplyMatch(text, ms[0]) == Success(Take(text, 0) + Wrap("This") + Drop(text, 3));
    assert [] + "**This**" + " is a test" == "**This** is a test";
    assert ApplyMatch(text, ms[0]) == Success("**This** is a test");
    assert ms[..0] == [];
  }

  /** Two corrections in a 30-character text: the later, longer piece does
      not disturb the earlier one, which lands at its original offset. */
  lemma TwoCorrectionsExample(text: string)
    requires |text| == 30
    ensures var ms := [Match(5, 3, [Replacement("foo")]), Match(20, 2, [Replacement("bar")])];
      SpliceAll(text, ms)
      == Success(text[..5] + "**foo**" + text[8..20] + "**bar**" + text[22..])
  {
    var ms := [Match(5, 3, [Replacement("foo")]), Match(20, 2, [Replacement("bar")])];
    assert Fits(ms[1..][1..], 22, 30);
    assert Wrapped(ms[0]) == "**foo**" && Wrapped(ms[1]) == "**bar**";
    ReverseSpliceIsInterleave(text, ms);
    assert ms[1..][1..] == [];
    assert Pieces(text, ms, 0) == text[0..5] + "**foo**" + (text[8..20] + "**bar**" + text[22..]);
    assert text[0..5] == text[..5];
    Regroup(text[..5], "**foo**", text[8..20], "**bar**", text[22..]);
  }
}
