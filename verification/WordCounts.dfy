/** Words, their order, and lists of counted words. */
module WordCounts {

  type Word = string

  datatype Entry = Entry(word: Word, count: int)

  // ---------------------------------------------------------------- the order of words

  predicate Less(a: Word, b: Word) {
    b != "" && (a == "" || a[0] < b[0] || (a[0] == b[0] && Less(a[1..], b[1..])))
  }

  /** The words agree on k characters, and then the first ends or has the character with the smaller code. */
  ghost predicate SmallerAt(a: Word, b: Word, k: nat) {
    k <= |a| && k < |b| && a[..k] == b[..k] && (k == |a| || a[k] as int < b[k] as int)
  }

  lemma SameStart(a: Word, b: Word, k: nat)
    ensures SmallerAt(a, b, k) && k > 0 ==> a != "" && b != "" && a[0] == b[0]
  {
    if SmallerAt(a, b, k) && k > 0 {
      assert a[..k][0] == b[..k][0];
    }
  }

  lemma FirstAlike(a: Word, b: Word, k: nat)
    requires a != "" && b != "" && a[0] == b[0] && 0 < k
    ensures SmallerAt(a, b, k) <==> SmallerAt(a[1..], b[1..], k - 1)
  {
    if k <= |a| && k < |b| {
      assert a[..k] == [a[0]] + a[1..][..k - 1] && b[..k] == [b[0]] + b[1..][..k - 1];
      assert a[1..][..k - 1] == a[..k][1..] && b[1..][..k - 1] == b[..k][1..];
    }
  }

  /** The order of a dictionary: by the first character that differs, and a word before its extensions. */
  lemma {:induction false} LessByFirst(a: Word, b: Word)
    ensures Less(a, b) <==> exists k: nat :: SmallerAt(a, b, k)
  {
    if a == "" || b == "" || a[0] != b[0] {
      if Less(a, b) {
        assert SmallerAt(a, b, 0);
      }
      if k: nat :| SmallerAt(a, b, k) {
        SameStart(a, b, k);
      }
    } else {
      LessByFirst(a[1..], b[1..]);
      if Less(a, b) {
        var k: nat :| SmallerAt(a[1..], b[1..], k);
        FirstAlike(a, b, k + 1);
      }
      if k: nat :| SmallerAt(a, b, k) {
        FirstAlike(a, b, k);
      }
    }
  }

  lemma {:induction false} LessTotal(a: Word, b: Word)
    ensures Less(a, b) || a == b || Less(b, a)
  {
    if a != "" && b != "" && a[0] == b[0] {
      LessTotal(a[1..], b[1..]);
      assert a == [a[0]] + a[1..] && b == [b[0]] + b[1..];
    }
  }

  lemma {:induction false} LessTrans(a: Word, b: Word, c: Word)
    requires Less(a, b) && Less(b, c)
    ensures Less(a, c)
  {
    if a != "" && a[0] == b[0] && b[0] == c[0] {
      LessTrans(a[1..], b[1..], c[1..]);
    }
  }

  lemma {:induction false} NotLess(a: Word)
    ensures !Less(a, a)
  {
    if a == "" {
    } else {
      NotLess(a[1..]);
    }
  }

  /** Not after: the order with equality. */
  predicate AtMost(a: Word, b: Word) {
    a == b || Less(a, b)
  }

  // ---------------------------------------------------------------- counting

  ghost function Occurs(words: seq<Word>, w: Word): (n: nat) {
    if words == [] then 0 else Occurs(words[..|words| - 1], w) + (if words[|words| - 1] == w then 1 else 0)
  }

  ghost function OccursAll(files: seq<seq<Word>>, w: Word): (n: nat) {
    if files == [] then 0 else OccursAll(files[..|files| - 1], w) + Occurs(files[|files| - 1], w)
  }

  /** The count that a list gives to a word, over all its entries. */
  ghost function Weight(es: seq<Entry>, w: Word): (n: int) {
    if es == [] then 0 else Weight(es[1..], w) + (if es[0].word == w then es[0].count else 0)
  }

  ghost function WeightAll(ess: seq<seq<Entry>>, w: Word): (n: int) {
    if ess == [] then 0 else WeightAll(ess[1..], w) + Weight(ess[0], w)
  }

  function Flatten(ess: seq<seq<Entry>>): (es: seq<Entry>) {
    if ess == [] then [] else Flatten(ess[..|ess| - 1]) + ess[|ess| - 1]
  }

  function Get(counts: map<Word, int>, w: Word): int {
    if w in counts then counts[w] else 0
  }

  lemma {:induction false} OccursConcat(a: seq<Word>, b: seq<Word>, w: Word)
    ensures Occurs(a + b, w) == Occurs(a, w) + Occurs(b, w)
  {
    if b == [] {
      assert a + b == a;
    } else {
      OccursConcat(a, b[..|b| - 1], w);
      assert (a + b)[..|a + b| - 1] == a + b[..|b| - 1];
    }
  }

  lemma {:induction false} WeightConcat(a: seq<Entry>, b: seq<Entry>, w: Word)
    ensures Weight(a + b, w) == Weight(a, w) + Weight(b, w)
  {
    if a == [] {
      assert a + b == b;
    } else {
      WeightConcat(a[1..], b, w);
      assert (a + b)[1..] == a[1..] + b;
    }
  }

  lemma {:induction false} WeightAllConcat(a: seq<seq<Entry>>, b: seq<seq<Entry>>, w: Word)
    ensures WeightAll(a + b, w) == WeightAll(a, w) + WeightAll(b, w)
  {
    if a == [] {
      assert a + b == b;
    } else {
      WeightAllConcat(a[1..], b, w);
      assert (a + b)[1..] == a[1..] + b;
    }
  }

  lemma WeightOne(e: Entry, w: Word)
    ensures Weight([e], w) == (if e.word == w then e.count else 0)
  {
    assert [e][1..] == [];
  }

  lemma WeightAllOne(es: seq<Entry>, w: Word)
    ensures WeightAll([es], w) == Weight(es, w)
  {
    assert [es][1..] == [];
  }

  lemma WeightAllSnoc(ess: seq<seq<Entry>>, es: seq<Entry>, w: Word)
    ensures WeightAll(ess + [es], w) == WeightAll(ess, w) + Weight(es, w)
  {
    WeightAllConcat(ess, [es], w);
    WeightAllOne(es, w);
  }

  lemma FlattenSnoc(ess: seq<seq<Entry>>, es: seq<Entry>)
    ensures Flatten(ess + [es]) == Flatten(ess) + es
  {
    assert (ess + [es])[..|ess|] == ess;
  }

  // ---------------------------------------------------------------- shapes of lists

  ghost predicate Ordered(es: seq<Entry>) {
    forall i, j :: 0 <= i < j < |es| ==> Less(es[i].word, es[j].word)
  }

  ghost predicate Positive(es: seq<Entry>) {
    forall i :: 0 <= i < |es| ==> es[i].count > 0
  }

  ghost predicate Descending(es: seq<Entry>) {
    forall i, j :: 0 <= i < j < |es| ==> es[i].count >= es[j].count
  }

  ghost predicate DistinctWords(es: seq<Entry>) {
    forall i, j :: 0 <= i < j < |es| ==> es[i].word != es[j].word
  }

  ghost predicate Mentions(es: seq<Entry>, w: Word) {
    exists i :: 0 <= i < |es| && es[i].word == w
  }

  /** The finished table: every word once, with its total, the most frequent first. */
  ghost predicate Table(out: seq<Entry>, files: seq<seq<Word>>) {
    && Descending(out) && Positive(out) && DistinctWords(out)
    && forall w :: Weight(out, w) == OccursAll(files, w)
  }

  lemma {:induction false} WeightOf(es: seq<Entry>, i: nat)
    requires DistinctWords(es) && i < |es|
    ensures Weight(es, es[i].word) == es[i].count
  {
    if i == 0 {
      WeightNone(es[1..], es[0].word);
    } else {
      assert forall k :: 0 <= k < |es[1..]| ==> es[1..][k] == es[k + 1];
      WeightOf(es[1..], i - 1);
    }
  }

  lemma {:induction false} WeightNone(es: seq<Entry>, w: Word)
    requires !Mentions(es, w)
    ensures Weight(es, w) == 0
  {
    if es == [] {
    } else {
      assert es[0].word != w;
      WeightNone(es[1..], w);
    }
  }

  /** Taking one occurrence out of a list. */
  lemma Extract(b: seq<Entry>, e: Entry) returns (i: nat)
    requires e in multiset(b)
    ensures i < |b| && b[i] == e && multiset(b[..i] + b[i + 1..]) == multiset(b) - multiset{e}
    ensures b == b[..i] + ([e] + b[i + 1..])
  {
    i :| 0 <= i < |b| && b[i] == e;
    assert b == b[..i] + ([e] + b[i + 1..]);
    assert multiset(b) == multiset(b[..i]) + multiset([e]) + multiset(b[i + 1..]);
  }

  lemma HeadOut(a: seq<Entry>)
    requires a != []
    ensures multiset(a[1..]) == multiset(a) - multiset{a[0]} && a[0] in multiset(a)
  {
    assert a == [a[0]] + a[1..];
  }

  /** Reordering changes no weight. */
  lemma {:induction false} WeightPermuted(a: seq<Entry>, b: seq<Entry>, w: Word)
    requires multiset(a) == multiset(b)
    ensures Weight(a, w) == Weight(b, w)
    decreases |a|
  {
    if a == [] {
      assert |multiset(b)| == 0;
    } else {
      HeadOut(a);
      var i := Extract(b, a[0]);
      WeightPermuted(a[1..], b[..i] + b[i + 1..], w);
      WeightConcat(b[..i], [a[0]] + b[i + 1..], w);
      WeightConcat([a[0]], b[i + 1..], w);
      WeightConcat(b[..i], b[i + 1..], w);
      WeightOne(a[0], w);
    }
  }

  // ---------------------------------------------------------------- the table is unique up to ties

  lemma TableEntries(out: seq<Entry>, other: seq<Entry>, files: seq<seq<Word>>, i: nat)
    requires Table(out, files) && Table(other, files) && i < |out|
    ensures out[i] in other
  {
    var w := out[i].word;
    WeightOf(out, i);
    assert Weight(other, w) == OccursAll(files, w) == Weight(out, w);
    if !Mentions(other, w) {
      WeightNone(other, w);
    } else {
      var k :| 0 <= k < |other| && other[k].word == w;
      WeightOf(other, k);
    }
  }

  lemma OnceEach(es: seq<Entry>)
    requires DistinctWords(es)
    ensures forall e :: multiset(es)[e] == (if e in es then 1 else 0)
  {
    forall e
      ensures multiset(es)[e] == (if e in es then 1 else 0)
    {
      Once(es, e);
    }
  }

  lemma {:induction false} Once(es: seq<Entry>, e: Entry)
    requires DistinctWords(es)
    ensures multiset(es)[e] == (if e in es then 1 else 0)
  {
    if es == [] {
    } else {
      assert es == [es[0]] + es[1..];
      assert forall k :: 0 <= k < |es[1..]| ==> es[1..][k] == es[k + 1];
      Once(es[1..], e);
    }
  }

  lemma SameEntries(out: seq<Entry>, other: seq<Entry>, files: seq<seq<Word>>)
    requires Table(out, files) && Table(other, files)
    ensures multiset(out) == multiset(other)
  {
    forall i | 0 <= i < |out|
      ensures out[i] in other
    {
      TableEntries(out, other, files, i);
    }
    forall i | 0 <= i < |other|
      ensures other[i] in out
    {
      TableEntries(other, out, files, i);
    }
    OnceEach(out);
    OnceEach(other);
    forall e
      ensures multiset(out)[e] == multiset(other)[e]
    {
      assert e in out <==> e in other;
    }
  }

  /** Two descending lists with the same entries have the same counts line by line. */
  lemma {:induction false} SameCounts(a: seq<Entry>, b: seq<Entry>, i: nat)
    requires Descending(a) && Descending(b) && multiset(a) == multiset(b) && i < |a|
    ensures |a| == |b| && a[i].count == b[i].count
    decreases i
  {
    assert |multiset(a)| == |a| && |multiset(b)| == |b|;
    if a[i].count < b[i].count {
      TooMany(b, a, i);
    } else if b[i].count < a[i].count {
      TooMany(a, b, i);
    }
  }

  /** If line i of a counts more than line i of b, a has more entries above b's than b has. */
  lemma TooMany(a: seq<Entry>, b: seq<Entry>, i: nat)
    requires Descending(a) && Descending(b) && i < |a| == |b| && b[i].count < a[i].count
    ensures multiset(a) != multiset(b)
  {
    var c := a[i].count;
    AboveOf(a, i, c);
    BelowOf(b, i, c);
    if multiset(a) == multiset(b) {
      AbovePermuted(a, b, c);
    }
  }

  ghost function Above(es: seq<Entry>, c: int): (n: nat) {
    if es == [] then 0 else Above(es[..|es| - 1], c) + (if es[|es| - 1].count >= c then 1 else 0)
  }

  lemma {:induction false} AboveOf(a: seq<Entry>, i: nat, c: int)
    requires Descending(a) && i < |a| && a[i].count >= c
    ensures Above(a, c) >= i + 1
  {
    if i == |a| - 1 {
      if i > 0 {
        AboveOf(a[..i], i - 1, c);
      }
    } else {
      AboveOf(a[..|a| - 1], i, c);
    }
  }

  lemma {:induction false} BelowOf(b: seq<Entry>, i: nat, c: int)
    requires Descending(b) && i < |b| && b[i].count < c
    ensures Above(b, c) <= i
  {
    if i == |b| - 1 {
      AboveBound(b[..i], c);
    } else {
      BelowOf(b[..|b| - 1], i, c);
    }
  }

  lemma {:induction false} AboveBound(es: seq<Entry>, c: int)
    ensures Above(es, c) <= |es|
  {
    if es == [] {
    } else {
      AboveBound(es[..|es| - 1], c);
    }
  }

  lemma {:induction false} AboveConcat(a: seq<Entry>, b: seq<Entry>, c: int)
    ensures Above(a + b, c) == Above(a, c) + Above(b, c)
  {
    if b == [] {
      assert a + b == a;
    } else {
      AboveConcat(a, b[..|b| - 1], c);
      assert (a + b)[..|a + b| - 1] == a + b[..|b| - 1];
    }
  }

  lemma {:induction false} AbovePermuted(a: seq<Entry>, b: seq<Entry>, c: int)
    requires multiset(a) == multiset(b)
    ensures Above(a, c) == Above(b, c)
    decreases |a|
  {
    if a == [] {
      assert |multiset(b)| == 0;
    } else {
      HeadOut(a);
      var i := Extract(b, a[0]);
      AbovePermuted(a[1..], b[..i] + b[i + 1..], c);
      assert a == [a[0]] + a[1..];
      AboveConcat([a[0]], a[1..], c);
      AboveConcat(b[..i], [a[0]] + b[i + 1..], c);
      AboveConcat([a[0]], b[i + 1..], c);
      AboveConcat(b[..i], b[i + 1..], c);
    }
  }

  /** Any two finished tables for the same input agree up to the order of words with equal counts. */
  lemma AgreeUpToTies(out: seq<Entry>, other: seq<Entry>, files: seq<seq<Word>>)
    requires Table(out, files) && Table(other, files)
    ensures multiset(out) == multiset(other) && |out| == |other|
    ensures forall i :: 0 <= i < |out| ==> out[i].count == other[i].count
  {
    hide Table;
    SameEntries(out, other, files);
    assert |multiset(out)| == |out| && |multiset(other)| == |other|;
    TableShape(out, files);
    TableShape(other, files);
    forall i | 0 <= i < |out|
      ensures out[i].count == other[i].count
    {
      SameCounts(out, other, i);
    }
  }

  lemma TableShape(out: seq<Entry>, files: seq<seq<Word>>)
    requires Table(out, files)
    ensures Descending(out)
  {
  }
}
