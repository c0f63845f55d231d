/** A user's per-word learning progress: the `correctList` of mastery entries and the
    `wrongList` of miss counts, with the two helpers that advance them on an answer. */
module Progress {
  import opened Wrappers

  /** One element of `correctList`. A word still being learned is stored as an object
      `{word, count}`; once mastered it is stored as the bare word. */
  datatype Entry = Counting(word: string, count: nat) | Mastered(word: string)

  /** Correct answers needed before a counting entry is replaced by the mastered word. */
  const MasteryCount: nat := 3

  /** The state of one word in a `correctList`, as a reader of the list sees it. */
  datatype Status = Unseen | Learning(count: nat) | Known

  /** The per-word state machine a correct answer drives: an unseen word starts counting at 1,
      a counting word goes up by one and is mastered when it reaches `MasteryCount`, and a
      mastered word stays mastered. */
  function Advance(s: Status): Status {
    match s
    case Unseen => Learning(1)
    case Learning(n) => if n + 1 == MasteryCount then Known else Learning(n + 1)
    case Known => Known
  }

  /** `Advance` applied `k` times. */
  function AdvanceN(s: Status, k: nat): Status {
    if k == 0 then s else Advance(AdvanceN(s, k - 1))
  }

  predicate IsCountingOf(e: Entry, w: string) {
    e.Counting? && e.word == w
  }

  /** Index of the first counting entry for `w` (the array `find` on `entry.word === word`;
      a bare string has no `word` property, so mastered entries never match). */
  function FirstCounting(l: seq<Entry>, w: string): (r: Option<nat>)
    ensures r.Some? ==> r.value < |l| && IsCountingOf(l[r.value], w)
    ensures r.Some? ==> forall j :: 0 <= j < r.value ==> !IsCountingOf(l[j], w)
    ensures r.None? ==> forall j :: 0 <= j < |l| ==> !IsCountingOf(l[j], w)
  {
    if l == [] then None
    else if IsCountingOf(l[0], w) then Some(0)
    else match FirstCounting(l[1..], w)
      case Some(i) => Some(i + 1)
      case None => None
  }

  /** The count of the first counting entry for `w`, if there is one. */
  function LearningCount(l: seq<Entry>, w: string): Option<nat> {
    if l == [] then None
    else if IsCountingOf(l[0], w) then Some(l[0].count)
    else LearningCount(l[1..], w)
  }

  /** How the source reads the state of `w` off the list: mastered if the bare word is
      present, otherwise the count of the first counting entry, otherwise unseen. */
  function StatusOf(l: seq<Entry>, w: string): Status {
    if Mastered(w) in l then Known
    else match LearningCount(l, w)
      case Some(n) => Learning(n)
      case None => Unseen
  }

  /** Entries about words other than `w`, in their original order. */
  function Without(l: seq<Entry>, w: string): (r: seq<Entry>)
    ensures forall e {:trigger e in r} :: e in r <==> e in l && e.word != w
  {
    if l == [] then []
    else (if l[0].word == w then [] else [l[0]]) + Without(l[1..], w)
  }

  /** The array `filter` keeping every entry whose `word` property differs from `w`:
      counting entries for `w` go, bare strings (which have no `word` property) stay. */
  function DropCounting(l: seq<Entry>, w: string): (r: seq<Entry>)
    ensures forall e {:trigger e in r} :: e in r <==> e in l && !IsCountingOf(e, w)
  {
    if l == [] then []
    else (if IsCountingOf(l[0], w) then [] else [l[0]]) + DropCounting(l[1..], w)
  }

  /** `updateCorrectList`: record one correct answer for `word`. */
  function UpdateCorrectList(l: seq<Entry>, word: string): (r: seq<Entry>)
    ensures Mastered(word) in l ==> r == l
    ensures Without(r, word) == Without(l, word)
  {
    if Mastered(word) in l then l
    else match FirstCounting(l, word)
      case Some(i) =>
        var n := l[i].count + 1;
        WithoutUpdate(l, i, Counting(word, n), word);
        if n == MasteryCount then
          WithoutConcat(DropCounting(l, word), [Mastered(word)], word);
          WithoutDropCounting(l, word);
          DropCounting(l, word) + [Mastered(word)]
        else
          l[i := Counting(word, n)]
      case None =>
        WithoutConcat(l, [Counting(word, 1)], word);
        l + [Counting(word, 1)]
  }

  /** Each word has at most one entry, whichever its form. */
  predicate UniqueWords(l: seq<Entry>) {
    forall i, j :: 0 <= i < j < |l| ==> l[i].word != l[j].word
  }

  /** Well-formed lists: each word has at most one entry, and a counting entry holds 1 or 2. */
  predicate WellFormed(l: seq<Entry>) {
    && UniqueWords(l)
    && (forall i :: 0 <= i < |l| && l[i].Counting? ==> 1 <= l[i].count < MasteryCount)
  }

  /** Misses recorded for `w`, with an absent key read as 0. */
  function Misses(m: map<string, nat>, w: string): nat {
    if w in m then m[w] else 0
  }

  /** `updateWrongList`: one more miss for `word`, starting from 0 when the key is absent. */
  function RecordMiss(m: map<string, nat>, word: string): (r: map<string, nat>)
    ensures word in r && Misses(r, word) == Misses(m, word) + 1
    ensures r.Keys == m.Keys + {word}
    ensures forall v :: v in m && v != word ==> r[v] == m[v]
  {
    m[word := Misses(m, word) + 1]
  }

  /** The delete on a correct answer. The source guards it by the truthiness of the stored
      count, so a key holding 0 would survive; no code path stores 0. */
  function ClearMiss(m: map<string, nat>, word: string): (r: map<string, nat>)
    ensures word in r ==> word in m && m[word] == 0
    ensures word in m && m[word] != 0 ==> word !in r
    ensures forall v :: v != word ==> (v in r <==> v in m)
    ensures forall v :: v in r ==> r[v] == m[v]
  {
    if word in m && m[word] != 0 then m - {word} else m
  }

  /** Every stored miss count is at least 1. */
  predicate PositiveMisses(m: map<string, nat>) {
    forall w :: w in m ==> m[w] >= 1
  }

  // ---------------------------------------------------------------------------
  // Lemmas about the filters

  lemma {:induction false} WithoutConcat(a: seq<Entry>, b: seq<Entry>, w: string)
    ensures Without(a + b, w) == Without(a, w) + Without(b, w)
  {
    if a == [] {
      assert a + b == b;
    } else {
      var head := if a[0].word == w then [] else [a[0]];
      calc {
        Without(a + b, w);
        { assert (a + b)[0] == a[0]; assert (a + b)[1..] == a[1..] + b; }
        head + Without(a[1..] + b, w);
        { WithoutConcat(a[1..], b, w); }
        head + (Without(a[1..], w) + Without(b, w));
        (head + Without(a[1..], w)) + Without(b, w);
      }
    }
  }

  lemma {:induction false} WithoutDropCounting(l: seq<Entry>, w: string)
    ensures Without(DropCounting(l, w), w) == Without(l, w)
  {
    if l != [] {
      var head := if IsCountingOf(l[0], w) then [] else [l[0]];
      WithoutConcat(head, DropCounting(l[1..], w), w);
      WithoutDropCounting(l[1..], w);
    }
  }

  /** Replacing an entry about `w` by another entry about `w` leaves the other words alone. */
  lemma WithoutUpdate(l: seq<Entry>, i: nat, e: Entry, w: string)
    requires i < |l| && l[i].word == w && e.word == w
    ensures Without(l[i := e], w) == Without(l, w)
  {
    assert l == l[..i] + [l[i]] + l[i + 1..];
    assert l[i := e] == l[..i] + [e] + l[i + 1..];
    WithoutConcat(l[..i] + [l[i]], l[i + 1..], w);
    WithoutConcat(l[..i], [l[i]], w);
    WithoutConcat(l[..i] + [e], l[i + 1..], w);
    WithoutConcat(l[..i], [e], w);
  }

  lemma {:induction false} LearningCountConcat(a: seq<Entry>, b: seq<Entry>, w: string)
    ensures LearningCount(a + b, w) == if LearningCount(a, w).Some? then LearningCount(a, w) else LearningCount(b, w)
  {
    if a == [] {
      assert a + b == b;
    } else {
      assert (a + b)[0] == a[0];
      assert (a + b)[1..] == a[1..] + b;
      LearningCountConcat(a[1..], b, w);
    }
  }

  /** The entry `find` returns is the one whose count the status reports. */
  lemma {:induction false} FirstCountingCount(l: seq<Entry>, w: string)
    ensures FirstCounting(l, w).None? <==> LearningCount(l, w).None?
    ensures FirstCounting(l, w).Some? ==> LearningCount(l, w) == Some(l[FirstCounting(l, w).value].count)
  {
    if l != [] && !IsCountingOf(l[0], w) {
      FirstCountingCount(l[1..], w);
    }
  }

  /** Bumping the entry `find` returned changes the count the status reports. */
  lemma {:induction false} LearningCountUpdate(l: seq<Entry>, i: nat, m: nat, w: string)
    requires FirstCounting(l, w) == Some(i)
    ensures LearningCount(l[i := Counting(w, m)], w) == Some(m)
  {
    if i > 0 {
      assert l[i := Counting(w, m)][1..] == l[1..][i - 1 := Counting(w, m)];
      LearningCountUpdate(l[1..], i - 1, m, w);
    }
  }

  lemma {:induction false} LearningCountWithout(l: seq<Entry>, w: string, v: string)
    requires v != w
    ensures LearningCount(Without(l, w), v) == LearningCount(l, v)
  {
    if l != [] {
      var head := if l[0].word == w then [] else [l[0]];
      LearningCountConcat(head, Without(l[1..], w), v);
      LearningCountWithout(l[1..], w, v);
    }
  }

  /** The state of a word depends only on the entries about that word. */
  lemma StatusOfWithout(l: seq<Entry>, w: string, v: string)
    requires v != w
    ensures StatusOf(Without(l, w), v) == StatusOf(l, v)
  {
    LearningCountWithout(l, w, v);
  }

  // ---------------------------------------------------------------------------
  // The per-word state machine of `updateCorrectList`

  /** A correct answer moves the answered word one step along `Advance`, on any list. */
  lemma CorrectAnswerAdvances(l: seq<Entry>, w: string)
    ensures StatusOf(UpdateCorrectList(l, w), w) == Advance(StatusOf(l, w))
  {
    var r := UpdateCorrectList(l, w);
    if Mastered(w) !in l {
      FirstCountingCount(l, w);
      match FirstCounting(l, w)
      case Some(i) =>
        var n := l[i].count + 1;
        if n != MasteryCount {
          assert Mastered(w) !in r by {
            forall j | 0 <= j < |r|
              ensures r[j] != Mastered(w)
            {
              if j != i {
                assert r[j] == l[j];
              }
            }
          }
          LearningCountUpdate(l, i, n, w);
        } else {
          assert r[|r| - 1] == Mastered(w);
        }
      case None =>
        LearningCountConcat(l, [Counting(w, 1)], w);
        assert LearningCount([Counting(w, 1)], w) == Some(1);
    }
  }

  /** A correct answer for `w` leaves the state of every other word as it was. */
  lemma CorrectAnswerFrame(l: seq<Entry>, w: string, v: string)
    requires v != w
    ensures StatusOf(UpdateCorrectList(l, w), v) == StatusOf(l, v)
  {
    StatusOfWithout(l, w, v);
    StatusOfWithout(UpdateCorrectList(l, w), w, v);
  }

  /** A mastered word is never demoted back to a counting entry by any correct answer. */
  lemma MasteredNeverReverts(l: seq<Entry>, w: string, v: string)
    requires StatusOf(l, v) == Known
    ensures StatusOf(UpdateCorrectList(l, w), v) == Known
  {
    if v == w {
      CorrectAnswerAdvances(l, w);
    } else {
      CorrectAnswerFrame(l, w, v);
    }
  }

  /** Without the bare word, the entries the `filter` drops are exactly those about `w`. */
  lemma {:induction false} DropCountingWithout(l: seq<Entry>, w: string)
    requires Mastered(w) !in l
    ensures DropCounting(l, w) == Without(l, w)
  {
    if l != [] {
      assert l[0] != Mastered(w);
      assert Mastered(w) !in l[1..];
      DropCountingWithout(l[1..], w);
    }
  }

  /** A correct answer for an unseen word appends `{word, count: 1}` at the end. */
  lemma CorrectAnswerAppendsUnseen(l: seq<Entry>, w: string)
    ensures StatusOf(l, w) == Unseen ==> UpdateCorrectList(l, w) == l + [Counting(w, 1)]
  {
    FirstCountingCount(l, w);
  }

  /** Below the last step, a correct answer bumps the counting entry in the position where it
      stands; `i` is that position. */
  lemma CorrectAnswerBumpsInPlace(l: seq<Entry>, w: string, n: nat) returns (i: nat)
    requires StatusOf(l, w) == Learning(n) && n + 1 != MasteryCount
    ensures i < |l| && l[i] == Counting(w, n)
    ensures UpdateCorrectList(l, w) == l[i := Counting(w, n + 1)]
  {
    FirstCountingCount(l, w);
    i := FirstCounting(l, w).value;
    assert l[i] == Counting(w, l[i].count);
  }

  /** On the last step the counting entry is removed, every other entry keeps its order, and
      the bare word is appended at the end. */
  lemma CorrectAnswerMastersAtEnd(l: seq<Entry>, w: string)
    ensures StatusOf(l, w) == Learning(MasteryCount - 1) ==>
      UpdateCorrectList(l, w) == Without(l, w) + [Mastered(w)]
  {
    if Mastered(w) !in l {
      FirstCountingCount(l, w);
      DropCountingWithout(l, w);
    }
  }

  lemma {:induction false} DropCountingUnique(l: seq<Entry>, w: string)
    requires UniqueWords(l)
    ensures UniqueWords(DropCounting(l, w))
  {
    if l != [] {
      var head := if IsCountingOf(l[0], w) then [] else [l[0]];
      var tail := DropCounting(l[1..], w);
      assert UniqueWords(l[1..]);
      DropCountingUnique(l[1..], w);
      forall e | e in tail
        ensures e.word != l[0].word
      {
        var k :| 0 <= k < |l[1..]| && l[1..][k] == e;
        assert l[k + 1] == e;
      }
      var r := head + tail;
      forall i, j | 0 <= i < j < |r|
        ensures r[i].word != r[j].word
      {
        if head != [] && i == 0 {
          assert r[j] == tail[j - 1];
          assert r[j] in tail;
        } else if head != [] {
          assert r[i] == tail[i - 1] && r[j] == tail[j - 1];
        }
      }
    }
  }

  /** Starting from a well-formed list, a correct answer keeps it well-formed: still at most
      one entry per word, and counting entries still in 1..2. */
  lemma CorrectListKeepsWellFormed(l: seq<Entry>, w: string)
    requires WellFormed(l)
    ensures WellFormed(UpdateCorrectList(l, w))
  {
    var r := UpdateCorrectList(l, w);
    if Mastered(w) !in l {
      match FirstCounting(l, w)
      case Some(i) =>
        var n := l[i].count + 1;
        if n == MasteryCount {
          var d := DropCounting(l, w);
          DropCountingUnique(l, w);
          forall e | e in d
            ensures e.word != w
          {
            var k :| 0 <= k < |l| && l[k] == e;
          }
          forall a, b | 0 <= a < b < |r|
            ensures r[a].word != r[b].word
          {
            if b == |r| - 1 {
              assert r[a] == d[a] && r[a] in d;
            } else {
              assert r[a] == d[a] && r[b] == d[b];
            }
          }
          forall a | 0 <= a < |r| && r[a].Counting?
            ensures 1 <= r[a].count < MasteryCount
          {
            assert r[a] == d[a] && r[a] in d;
            var k :| 0 <= k < |l| && l[k] == r[a];
          }
        }
      case None =>
        forall a | 0 <= a < |l|
          ensures l[a].word != w
        {
          assert l[a] != Mastered(w);
          assert !IsCountingOf(l[a], w);
        }
    }
  }
}
