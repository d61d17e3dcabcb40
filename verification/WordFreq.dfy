/** Sorting words by frequency with bounded tables: count into segments, combine them by word, merge by count. */
module WordFreq {
  import opened WordCounts

  // ---------------------------------------------------------------- maps in order, and sorting

  method LeastKey(keys: set<Word>) returns (k: Word)
    requires keys != {}
    ensures k in keys && forall x :: x in keys ==> AtMost(k, x)
  {
    hide Less;
    k :| k in keys;
    var rest := keys - {k};
    while rest != {}
      invariant k in keys && rest <= keys && forall y :: y in keys && y !in rest ==> AtMost(k, y)
      decreases |rest|
    {
      var x :| x in rest;
      if Less(x, k) {
        forall y | y in keys && y !in rest
          ensures AtMost(x, y)
        {
          if y != k {
            LessTrans(x, k, y);
          }
        }
        k := x;
      } else {
        LessTotal(x, k);
      }
      rest := rest - {x};
    }
  }

  /** The entries of an ordered map, in the order of its keys. */
  method InOrder(counts: map<Word, int>) returns (es: seq<Entry>)
    ensures Ordered(es) && DistinctWords(es)
    ensures forall w :: Weight(es, w) == Get(counts, w)
    ensures forall i :: 0 <= i < |es| ==> es[i].word in counts && counts[es[i].word] == es[i].count
    ensures |es| == |counts|
  {
    hide Less, Weight, Ordered, Get, Follows;
    es := [];
    var rest := counts;
    NothingYet(counts);
    while rest != map[]
      invariant Ordered(es) && rest.Keys <= counts.Keys && (forall w :: w in rest ==> rest[w] == counts[w])
      invariant Follows(es, rest)
      invariant forall w :: Weight(es, w) + Get(rest, w) == Get(counts, w)
      invariant forall i :: 0 <= i < |es| ==> es[i].word in counts && counts[es[i].word] == es[i].count
      invariant |es| + |rest| == |counts|
      decreases |rest|
    {
      NotEmpty(rest);
      var k := LeastKey(rest.Keys);
      NextEntry(es, rest, k);
      es := es + [Entry(k, rest[k])];
      rest := rest - {k};
    }
    NoneLeft(rest);
    OrderedIsDistinct(es);
  }

  /** Every word still in the map comes after those in the list. */
  ghost predicate Follows(es: seq<Entry>, rest: map<Word, int>) {
    forall i, w :: 0 <= i < |es| && w in rest ==> Less(es[i].word, w)
  }

  lemma NothingYet(counts: map<Word, int>)
    ensures Ordered([]) && Follows([], counts) && forall w :: Weight([], w) == 0
  {
  }

  lemma NoneLeft(rest: map<Word, int>)
    requires rest == map[]
    ensures forall w :: Get(rest, w) == 0
  {
  }

  lemma NextEntry(es: seq<Entry>, rest: map<Word, int>, k: Word)
    requires Ordered(es) && Follows(es, rest) && k in rest && forall x :: x in rest.Keys ==> AtMost(k, x)
    ensures Ordered(es + [Entry(k, rest[k])]) && Follows(es + [Entry(k, rest[k])], rest - {k})
    ensures forall w :: Weight(es + [Entry(k, rest[k])], w) + Get(rest - {k}, w) == Weight(es, w) + Get(rest, w)
    ensures |rest - {k}| == |rest| - 1
  {
    hide Less, Weight;
    NotLess(k);
    var e := Entry(k, rest[k]);
    forall w
      ensures Weight(es + [e], w) + Get(rest - {k}, w) == Weight(es, w) + Get(rest, w)
    {
      WeightConcat(es, [e], w);
      WeightOne(e, w);
    }
    assert (rest - {k}).Keys == rest.Keys - {k};
    assert |rest.Keys - {k}| == |rest.Keys| - 1;
    assert |rest| == |rest.Keys| && |rest - {k}| == |(rest - {k}).Keys|;
  }

  lemma NotEmpty(m: map<Word, int>)
    requires m != map[]
    ensures m.Keys != {}
  {
    assert forall w :: w in m ==> w in m.Keys;
  }

  lemma OrderedIsDistinct(es: seq<Entry>)
    requires Ordered(es)
    ensures DistinctWords(es)
  {
    forall i, j | 0 <= i < j < |es|
      ensures es[i].word != es[j].word
    {
      NotLess(es[i].word);
    }
  }

  /** Larger counts first, and later words first among equal counts. */
  predicate Before(a: Entry, b: Entry) {
    a.count > b.count || (a.count == b.count && AtMost(b.word, a.word))
  }

  ghost predicate Sorted(es: seq<Entry>) {
    forall i, j :: 0 <= i < j < |es| ==> Before(es[i], es[j])
  }

  lemma BeforeTrans(a: Entry, b: Entry, c: Entry)
    requires Before(a, b) && Before(b, c)
    ensures Before(a, c)
  {
    if a.count == b.count == c.count && a.word != b.word && b.word != c.word {
      LessTrans(c.word, b.word, a.word);
    }
  }

  lemma BeforeTotal(a: Entry, b: Entry)
    ensures Before(a, b) || Before(b, a)
  {
    LessTotal(a.word, b.word);
  }

  /** std::sort ascending by count and word, read backwards. */
  method SortDown(es: seq<Entry>) returns (out: seq<Entry>)
    ensures Sorted(out) && multiset(out) == multiset(es)
  {
    hide Before;
    out := [];
    for n := 0 to |es|
      invariant Sorted(out) && multiset(out) == multiset(es[..n])
    {
      out := Insert(out, es[n]);
      assert es[..n + 1] == es[..n] + [es[n]];
    }
    assert es[..|es|] == es;
  }

  method Insert(es: seq<Entry>, e: Entry) returns (out: seq<Entry>)
    requires Sorted(es)
    ensures Sorted(out) && multiset(out) == multiset(es) + multiset{e}
  {
    hide Before;
    var i := 0;
    while i < |es| && Before(es[i], e)
      invariant 0 <= i <= |es| && forall k :: 0 <= k < i ==> Before(es[k], e)
    {
      i := i + 1;
    }
    out := es[..i] + [e] + es[i..];
    assert es == es[..i] + es[i..];
    if i < |es| {
      BeforeTotal(es[i], e);
    }
    forall k | i <= k < |es|
      ensures Before(e, es[k])
    {
      if k > i {
        BeforeTrans(e, es[i], es[k]);
      }
    }
  }

  lemma SortedDescends(es: seq<Entry>)
    requires Sorted(es)
    ensures Descending(es)
  {
    hide AtMost;
    forall i, j | 0 <= i < j < |es|
      ensures es[i].count >= es[j].count
    {
      assert Before(es[i], es[j]);
    }
  }

  // ---------------------------------------------------------------- input

  /** Counts words from position start until the table holds more than kMaxSize of them. */
  method CountSome(words: seq<Word>, start: nat, kMaxSize: nat) returns (counts: map<Word, int>, next: nat)
    requires start <= |words|
    ensures start <= next <= |words| && (start < |words| ==> start < next)
    ensures Tallies(counts, words[start..next]) && AllPositive(counts)
    ensures |counts| <= kMaxSize + 1 && (next < |words| ==> |counts| == kMaxSize + 1)
  {
    hide Tallies, Get;
    counts := map[];
    next := start;
    NoTally(words[start..start]);
    while next < |words|
      invariant start <= next <= |words|
      invariant Tallies(counts, words[start..next]) && AllPositive(counts) && |counts| <= kMaxSize
    {
      var word := words[next];
      TallyStep(counts, words, start, next);
      Added(counts, word, 1);
      OneKey(counts, word, Get(counts, word) + 1);
      counts := counts[word := Get(counts, word) + 1];
      next := next + 1;
      if |counts| > kMaxSize {
        break;
      }
    }
  }

  lemma OneKey(counts: map<Word, int>, word: Word, n: int)
    ensures |counts| <= |counts[word := n]| <= |counts| + 1
    ensures word in counts ==> |counts[word := n]| == |counts|
  {
    assert counts[word := n].Keys == counts.Keys + {word};
    assert |counts| == |counts.Keys| && |counts[word := n]| == |counts[word := n].Keys|;
    if word in counts {
      assert counts.Keys + {word} == counts.Keys;
    }
  }

  /** All but the last hold exactly one word more than the table size, the last no more than that. */
  ghost predicate FullBut(files: seq<seq<Entry>>, kMaxSize: nat) {
    && (forall i :: 0 <= i < |files| ==> |files[i]| <= kMaxSize + 1)
    && forall i :: 0 <= i < |files| - 1 ==> |files[i]| == kMaxSize + 1
  }

  ghost predicate AllFull(files: seq<seq<Entry>>, kMaxSize: nat) {
    forall i :: 0 <= i < |files| ==> |files[i]| == kMaxSize + 1
  }

  ghost predicate AllPositive(counts: map<Word, int>) {
    forall w :: w in counts ==> counts[w] > 0
  }

  /** counts[word] += n. */
  lemma Added(counts: map<Word, int>, word: Word, n: int)
    ensures forall w :: Get(counts[word := Get(counts, word) + n], w) == Get(counts, w) + (if w == word then n else 0)
    ensures AllPositive(counts) && n > 0 ==> AllPositive(counts[word := Get(counts, word) + n])
  {
  }

  lemma NoOccurrence(words: seq<Word>)
    requires words == []
    ensures forall w :: Occurs(words, w) == 0
  {
  }

  ghost predicate Tallies(counts: map<Word, int>, words: seq<Word>) {
    forall w :: Get(counts, w) == Occurs(words, w)
  }

  lemma NoTally(words: seq<Word>)
    requires words == []
    ensures Tallies(map[], words)
  {
  }

  lemma TallyStep(counts: map<Word, int>, words: seq<Word>, start: nat, next: nat)
    requires start <= next < |words| && Tallies(counts, words[start..next])
    ensures Tallies(counts[words[next] := Get(counts, words[next]) + 1], words[start..next + 1])
  {
    hide Occurs, Get;
    var word := words[next];
    Added(counts, word, 1);
    var more, longer := counts[word := Get(counts, word) + 1], words[start..next + 1];
    assert longer == words[start..next] + [word];
    forall w
      ensures Get(more, w) == Occurs(longer, w)
    {
      OccursConcat(words[start..next], [word], w);
      OccursOne(word, w);
    }
  }

  lemma OccursOne(word: Word, w: Word)
    ensures Occurs([word], w) == (if word == w then 1 else 0)
  {
    assert [word][..0] == [];
  }

  ghost predicate Segments(segments: seq<seq<Entry>>) {
    forall i :: 0 <= i < |segments| ==> Ordered(segments[i]) && Positive(segments[i])
  }

  /** One file into segments, each sorted by word; a file leaves at least one segment, be it empty. */
  method Split(words: seq<Word>, kMaxSize: nat) returns (segments: seq<seq<Entry>>)
    ensures Segments(segments) && segments != [] && FullBut(segments, kMaxSize)
    ensures forall w :: WeightAll(segments, w) == Occurs(words, w)
  {
    hide Occurs, Weight, WeightAll, Ordered, Positive;
    segments := [];
    var i := 0;
    NoOccurrence(words[..0]);
    NoSegments();
    while true
      invariant 0 <= i <= |words| && Segments(segments) && (segments != [] ==> i < |words|) && AllFull(segments, kMaxSize)
      invariant forall w :: WeightAll(segments, w) == Occurs(words[..i], w)
      decreases |words| - i, |words| - |segments|
    {
      var counts, next := CountSome(words, i, kMaxSize);
      var es := InOrder(counts);
      PositiveEntries(counts, es);
      OneSegment(words, i, next, segments, es, counts);
      segments := segments + [es];
      i := next;
      if i >= |words| {
        break;
      }
    }
    assert words[..|words|] == words;
  }

  lemma NoSegments()
    ensures forall w :: WeightAll([], w) == 0
  {
  }

  lemma PositiveEntries(counts: map<Word, int>, es: seq<Entry>)
    requires AllPositive(counts)
    requires forall i :: 0 <= i < |es| ==> es[i].word in counts && counts[es[i].word] == es[i].count
    ensures Positive(es)
  {
  }

  lemma OneSegment(words: seq<Word>, i: nat, next: nat, segments: seq<seq<Entry>>, es: seq<Entry>, counts: map<Word, int>)
    requires i <= next <= |words|
    requires forall w :: WeightAll(segments, w) == Occurs(words[..i], w)
    requires forall w :: Weight(es, w) == Get(counts, w)
    requires Tallies(counts, words[i..next])
    ensures forall w :: WeightAll(segments + [es], w) == Occurs(words[..next], w)
  {
    hide Occurs, Weight, WeightAll;
    forall w
      ensures WeightAll(segments + [es], w) == Occurs(words[..next], w)
    {
      WeightAllSnoc(segments, es, w);
      OccursConcat(words[..i], words[i..next], w);
      assert words[..i] + words[i..next] == words[..next];
    }
  }

  /** The segments that one file leaves. */
  ghost predicate FromFile(segments: seq<seq<Entry>>, words: seq<Word>, kMaxSize: nat) {
    && Segments(segments) && segments != [] && FullBut(segments, kMaxSize)
    && forall w :: WeightAll(segments, w) == Occurs(words, w)
  }

  /** The segments of the files, one file after the other. */
  ghost predicate FromFiles(segments: seq<seq<Entry>>, files: seq<seq<Word>>, kMaxSize: nat) {
    if files == [] then segments == []
    else exists m :: 0 <= m <= |segments| && FromFile(segments[m..], files[|files| - 1], kMaxSize)
                     && FromFiles(segments[..m], files[..|files| - 1], kMaxSize)
  }

  method Input(files: seq<seq<Word>>, kMaxSize: nat) returns (segments: seq<seq<Entry>>)
    ensures Segments(segments) && FromFiles(segments, files, kMaxSize)
    ensures forall w :: WeightAll(segments, w) == OccursAll(files, w)
  {
    hide Occurs, Weight, WeightAll, Ordered, Positive, FromFile;
    segments := [];
    NoSegments();
    for n := 0 to |files|
      invariant Segments(segments) && FromFiles(segments, files[..n], kMaxSize)
      invariant forall w :: WeightAll(segments, w) == OccursAll(files[..n], w)
    {
      var more := Split(files[n], kMaxSize);
      OneFileMore(segments, more, files, n, kMaxSize);
      forall w
        ensures WeightAll(segments + more, w) == OccursAll(files[..n + 1], w)
      {
        WeightAllConcat(segments, more, w);
        assert files[..n + 1][..n] == files[..n];
      }
      segments := segments + more;
    }
    assert files[..|files|] == files;
  }

  lemma OneFileMore(segments: seq<seq<Entry>>, more: seq<seq<Entry>>, files: seq<seq<Word>>, n: nat, kMaxSize: nat)
    requires n < |files| && FromFiles(segments, files[..n], kMaxSize)
    requires Segments(more) && more != [] && FullBut(more, kMaxSize) && forall w :: WeightAll(more, w) == Occurs(files[n], w)
    ensures FromFiles(segments + more, files[..n + 1], kMaxSize)
  {
    hide Occurs, WeightAll, Ordered, Positive, FullBut;
    var m := |segments|;
    assert (segments + more)[m..] == more && (segments + more)[..m] == segments;
    assert files[..n + 1][..n] == files[..n];
    assert FromFile((segments + more)[m..], files[n], kMaxSize);
  }

  // ---------------------------------------------------------------- combine

  /** A heap of open files; pop_heap puts a best one last. */
  ghost predicate Heap(keys: seq<seq<Entry>>) {
    forall i :: 0 <= i < |keys| ==> keys[i] != []
  }

  /** The segment whose current word is least, and the others. */
  method PopLeastWord(keys: seq<seq<Entry>>) returns (i: nat)
    requires keys != [] && Heap(keys)
    ensures i < |keys| && forall k :: 0 <= k < |keys| ==> AtMost(keys[i][0].word, keys[k][0].word)
  {
    hide Less;
    i := 0;
    for n := 1 to |keys|
      invariant i < n && forall k :: 0 <= k < n ==> AtMost(keys[i][0].word, keys[k][0].word)
    {
      if Less(keys[n][0].word, keys[i][0].word) {
        forall k | 0 <= k < n
          ensures AtMost(keys[n][0].word, keys[k][0].word)
        {
          if keys[k][0].word != keys[i][0].word {
            LessTrans(keys[n][0].word, keys[i][0].word, keys[k][0].word);
          }
        }
        i := n;
      } else {
        LessTotal(keys[n][0].word, keys[i][0].word);
      }
    }
  }

  /** The files with file i moved on by one line, and dropped at its end. */
  function Advance(keys: seq<seq<Entry>>, i: nat): (r: seq<seq<Entry>>)
    requires i < |keys| && keys[i] != []
  {
    if |keys[i]| > 1 then keys[..i] + keys[i + 1..] + [keys[i][1..]] else keys[..i] + keys[i + 1..]
  }

  /** Whatever is in the moved-on files was there before: a file untouched, or the rest of file i. */
  lemma AdvanceFrom(keys: seq<seq<Entry>>, i: nat, k: nat)
    requires i < |keys| && keys[i] != [] && k < |Advance(keys, i)|
    ensures (exists j :: 0 <= j < |keys| && j != i && keys[j] == Advance(keys, i)[k]) || (|keys[i]| > 1 && Advance(keys, i)[k] == keys[i][1..])
  {
    if k < i {
      assert keys[k] == Advance(keys, i)[k];
    } else if k < |keys| - 1 {
      assert keys[k + 1] == Advance(keys, i)[k];
    }
  }

  lemma AdvanceWeight(keys: seq<seq<Entry>>, i: nat, w: Word)
    requires i < |keys| && keys[i] != []
    ensures WeightAll(keys, w) == WeightAll(Advance(keys, i), w) + (if keys[i][0].word == w then keys[i][0].count else 0)
  {
    var top := keys[i];
    assert keys == keys[..i] + ([top] + keys[i + 1..]);
    WeightAllConcat(keys[..i], [top] + keys[i + 1..], w);
    WeightAllConcat([top], keys[i + 1..], w);
    WeightAllOne(top, w);
    WeightAllConcat(keys[..i], keys[i + 1..], w);
    if |top| > 1 {
      WeightAllSnoc(keys[..i] + keys[i + 1..], top[1..], w);
    } else {
      assert top[1..] == [];
    }
  }

  /** The files still to be read are ordered and hold no word before last. */
  ghost predicate Ahead(keys: seq<seq<Entry>>, last: Word) {
    forall i :: 0 <= i < |keys| ==> keys[i] != [] && Ordered(keys[i]) && Positive(keys[i]) && AtMost(last, keys[i][0].word)
  }

  /** What has been written is behind last and shares no word with the table. */
  ghost predicate Behind(written: seq<Entry>, counts: map<Word, int>, last: Word) {
    && DistinctWords(written) && Positive(written)
    && (forall i :: 0 <= i < |written| ==> Less(written[i].word, last) && written[i].word !in counts)
    && AllPositive(counts) && forall w :: w in counts ==> AtMost(w, last)
  }

  ghost predicate Balance(written: seq<Entry>, counts: map<Word, int>, keys: seq<seq<Entry>>, segments: seq<seq<Entry>>) {
    forall w :: Weight(written, w) + Get(counts, w) + WeightAll(keys, w) == WeightAll(segments, w)
  }

  lemma AdvanceAhead(keys: seq<seq<Entry>>, i: nat)
    requires i < |keys| && keys[i] != [] && Ahead(keys, keys[i][0].word)
    ensures Ahead(Advance(keys, i), keys[i][0].word)
  {
    hide Less, Advance;
    var keys': seq<seq<Entry>> := Advance(keys, i);
    var word := keys[i][0].word;
    forall k | 0 <= k < |keys'|
      ensures keys'[k] != [] && Ordered(keys'[k]) && Positive(keys'[k]) && AtMost(word, keys'[k][0].word)
    {
      AdvanceFrom(keys, i, k);
      if |keys[i]| > 1 && keys'[k] == keys[i][1..] {
        assert forall n :: 0 <= n < |keys'[k]| ==> keys'[k][n] == keys[i][n + 1];
      }
    }
  }

  /** Going on to a later word. */
  lemma AheadFrom(keys: seq<seq<Entry>>, last: Word, i: nat)
    requires Ahead(keys, last) && i < |keys| && forall k :: 0 <= k < |keys| ==> keys[k] != [] && AtMost(keys[i][0].word, keys[k][0].word)
    ensures Ahead(keys, keys[i][0].word)
  {
    hide Less, Ordered, Positive;
  }

  lemma BehindLater(written: seq<Entry>, counts: map<Word, int>, last: Word, word: Word)
    requires Behind(written, counts, last) && Less(last, word)
    ensures Behind(written, counts, word)
  {
    hide Less;
    forall i | 0 <= i < |written|
      ensures Less(written[i].word, word)
    {
      LessTrans(written[i].word, last, word);
    }
    forall w | w in counts
      ensures AtMost(w, word)
    {
      if w != last {
        LessTrans(w, last, word);
      }
    }
  }

  lemma BehindCounted(written: seq<Entry>, counts: map<Word, int>, word: Word, n: int)
    requires Behind(written, counts, word) && n > 0
    ensures Behind(written, counts[word := Get(counts, word) + n], word)
  {
    hide Less;
    NotLess(word);
    Added(counts, word, n);
  }

  /** The table as a count file. */
  method Output(counts: map<Word, int>) returns (file: seq<Entry>)
    requires AllPositive(counts)
    ensures Sorted(file) && DistinctWords(file) && Positive(file)
    ensures forall w :: Weight(file, w) == Get(counts, w)
    ensures forall i :: 0 <= i < |file| ==> file[i].word in counts
    ensures |file| == |counts|
    ensures forall i, j :: 0 <= i < j < |file| ==>
      file[i].count > file[j].count || (file[i].count == file[j].count && Less(file[j].word, file[i].word))
  {
    hide Weight, Less, Before, Get;
    var es := InOrder(counts);
    file := SortDown(es);
    PositiveEntries(counts, es);
    PermutedShape(es, file);
    assert |multiset(es)| == |es| && |multiset(file)| == |file|;
    forall w
      ensures Weight(file, w) == Get(counts, w)
    {
      WeightPermuted(file, es, w);
    }
    SortedStrictly(file);
  }

  lemma SortedStrictly(file: seq<Entry>)
    requires Sorted(file) && DistinctWords(file)
    ensures forall i, j :: 0 <= i < j < |file| ==>
      file[i].count > file[j].count || (file[i].count == file[j].count && Less(file[j].word, file[i].word))
  {
    hide Less;
    forall i, j | 0 <= i < j < |file|
      ensures file[i].count > file[j].count || (file[i].count == file[j].count && Less(file[j].word, file[i].word))
    {
      assert Before(file[i], file[j]);
    }
  }

  lemma PermutedShape(es: seq<Entry>, file: seq<Entry>)
    requires multiset(es) == multiset(file) && DistinctWords(es) && Positive(es)
    ensures DistinctWords(file) && Positive(file)
    ensures forall i :: 0 <= i < |file| ==> file[i] in es
  {
    forall i | 0 <= i < |file|
      ensures file[i] in es
    {
      assert file[i] in multiset(file);
    }
    OnceEach(es);
    forall i, j | 0 <= i < j < |file|
      ensures file[i].word != file[j].word
    {
      if file[i] == file[j] {
        Twice(file, i, j);
      }
    }
  }

  lemma Twice(file: seq<Entry>, i: nat, j: nat)
    requires i < j < |file| && file[i] == file[j]
    ensures multiset(file)[file[i]] >= 2
  {
    assert file == file[..i] + [file[i]] + file[i + 1..j] + [file[j]] + file[j + 1..];
  }

  lemma FlushBehind(written: seq<Entry>, counts: map<Word, int>, file: seq<Entry>, last: Word, word: Word)
    requires Behind(written, counts, last) && Less(last, word)
    requires DistinctWords(file) && Positive(file) && forall i :: 0 <= i < |file| ==> file[i].word in counts
    ensures Behind(written + file, map[], word)
  {
    BehindLater(written, counts, last, word);
    hide Less;
    forall i | 0 <= i < |file|
      ensures Less(file[i].word, word)
    {
      if file[i].word != last {
        LessTrans(file[i].word, last, word);
      }
    }
  }

  lemma FlushBalance(written: seq<Entry>, counts: map<Word, int>, file: seq<Entry>, keys: seq<seq<Entry>>, segments: seq<seq<Entry>>)
    requires Balance(written, counts, keys, segments) && forall w :: Weight(file, w) == Get(counts, w)
    ensures Balance(written + file, map[], keys, segments)
  {
    hide Weight, WeightAll;
    forall w
      ensures Weight(written + file, w) + Get(map[], w) + WeightAll(keys, w) == WeightAll(segments, w)
    {
      WeightConcat(written, file, w);
    }
  }

  lemma TakeBalance(written: seq<Entry>, counts: map<Word, int>, keys: seq<seq<Entry>>, segments: seq<seq<Entry>>, i: nat)
    requires Balance(written, counts, keys, segments) && i < |keys| && keys[i] != []
    ensures Balance(written, counts[keys[i][0].word := Get(counts, keys[i][0].word) + keys[i][0].count], Advance(keys, i), segments)
  {
    hide Weight, WeightAll, Advance, Get;
    var e := keys[i][0];
    var counts' := counts[e.word := Get(counts, e.word) + e.count];
    Added(counts, e.word, e.count);
    forall w
      ensures Weight(written, w) + Get(counts', w) + WeightAll(Advance(keys, i), w) == WeightAll(segments, w)
    {
      AdvanceWeight(keys, i, w);
    }
  }

  /** Opening the segments: the empty ones are left out. */
  method Open(files: seq<seq<Entry>>) returns (keys: seq<seq<Entry>>)
    ensures forall w :: WeightAll(keys, w) == WeightAll(files, w)
    ensures forall i :: 0 <= i < |keys| ==> keys[i] != [] && keys[i] in files
    ensures multiset(Flatten(keys)) == multiset(Flatten(files))
  {
    hide Weight, WeightAll, Flatten;
    keys := [];
    NothingOpen(files[..0]);
    for n := 0 to |files|
      invariant forall w :: WeightAll(keys, w) == WeightAll(files[..n], w)
      invariant forall i :: 0 <= i < |keys| ==> keys[i] != [] && keys[i] in files
      invariant multiset(Flatten(keys)) == multiset(Flatten(files[..n]))
    {
      OpenOne(keys, files, n);
      if files[n] != [] {
        keys := keys + [files[n]];
      }
    }
    assert files[..|files|] == files;
  }

  lemma NothingOpen(none: seq<seq<Entry>>)
    requires none == []
    ensures Flatten(none) == [] && Flatten([]) == []
    ensures forall w :: WeightAll(none, w) == 0
  {
  }

  lemma OpenOne(keys: seq<seq<Entry>>, files: seq<seq<Entry>>, n: nat)
    requires n < |files| && (forall w :: WeightAll(keys, w) == WeightAll(files[..n], w))
    requires multiset(Flatten(keys)) == multiset(Flatten(files[..n]))
    ensures var keys' := if files[n] != [] then keys + [files[n]] else keys;
      && (forall w :: WeightAll(keys', w) == WeightAll(files[..n + 1], w))
      && multiset(Flatten(keys')) == multiset(Flatten(files[..n + 1]))
  {
    hide Weight, WeightAll, Flatten;
    var keys' := if files[n] != [] then keys + [files[n]] else keys;
    assert files[..n + 1] == files[..n] + [files[n]];
    FlattenSnoc(files[..n], files[n]);
    FlattenSnoc(keys, files[n]);
    NothingYet(map[]);
    forall w
      ensures WeightAll(keys', w) == WeightAll(files[..n + 1], w)
    {
      WeightAllSnoc(keys, files[n], w);
      WeightAllSnoc(files[..n], files[n], w);
    }
  }

  ghost predicate CountFiles(files: seq<seq<Entry>>) {
    forall i :: 0 <= i < |files| ==> Sorted(files[i]) && Positive(files[i])
  }

  /** k-way merge of the segments by word: each word lands in exactly one count file, with its total. */
  method Combine(segments: seq<seq<Entry>>, kMaxSize: nat) returns (files: seq<seq<Entry>>)
    requires Segments(segments)
    ensures CountFiles(files) && DistinctWords(Flatten(files)) && Positive(Flatten(files)) && FullBut(files, kMaxSize)
    ensures forall w :: Weight(Flatten(files), w) == WeightAll(segments, w)
  {
    hide Less, Weight, WeightAll, Flatten, Balance, Behind, Ahead, Get, Advance, AtMost, Sorted, Positive;
    var keys := Open(segments);
    var last := "";
    var counts: map<Word, int> := map[];
    files := [];
    Start(segments, keys);
    while keys != []
      invariant Ahead(keys, last) && Behind(Flatten(files), counts, last) && Balance(Flatten(files), counts, keys, segments)
      invariant CountFiles(files) && AllFull(files, kMaxSize) && |counts| <= kMaxSize + 1
      invariant last !in counts ==> |counts| <= kMaxSize
      decreases Total(keys)
    {
      AheadHeap(keys, last);
      var i := PopLeastWord(keys);
      var word, count := keys[i][0].word, keys[i][0].count;
      HeadFacts(keys, last, i);
      if word != last {
        if |counts| > kMaxSize {
          BehindPositive(Flatten(files), counts, last);
          var file := Output(counts);
          FlushBehind(Flatten(files), counts, file, last, word);
          FlushBalance(Flatten(files), counts, file, keys, segments);
          FlattenSnoc(files, file);
          files := files + [file];
          counts := map[];
        } else {
          BehindLater(Flatten(files), counts, last, word);
        }
        last := word;
      }
      TakeBalance(Flatten(files), counts, keys, segments, i);
      BehindCounted(Flatten(files), counts, word, count);
      AdvanceAhead(keys, i);
      AdvanceTotal(keys, i);
      OneKey(counts, word, Get(counts, word) + count);
      counts := counts[word := Get(counts, word) + count];
      keys := Advance(keys, i);
    }
    BehindPositive(Flatten(files), counts, last);
    if counts != map[] {
      var file := Output(counts);
      FlattenSnoc(files, file);
      LastFlush(Flatten(files), counts, file, last);
      FlushBalance(Flatten(files), counts, file, keys, segments);
      files := files + [file];
    }
    AllWritten(Flatten(files), keys, segments);
  }

  lemma Start(segments: seq<seq<Entry>>, keys: seq<seq<Entry>>)
    requires Segments(segments) && (forall i :: 0 <= i < |keys| ==> keys[i] != [] && keys[i] in segments)
    requires forall w :: WeightAll(keys, w) == WeightAll(segments, w)
    ensures Ahead(keys, "") && Behind(Flatten([]), map[], "") && Balance(Flatten([]), map[], keys, segments)
  {
    hide Ordered, Positive, WeightAll;
    assert Flatten([]) == [];
    assert Positive([]) by { NoEntries(); }
  }

  lemma NoEntries()
    ensures Positive([])
  {
  }

  lemma AheadHeap(keys: seq<seq<Entry>>, last: Word)
    requires Ahead(keys, last)
    ensures Heap(keys)
  {
  }

  lemma HeadFacts(keys: seq<seq<Entry>>, last: Word, i: nat)
    requires Ahead(keys, last) && i < |keys| && Heap(keys) && forall k :: 0 <= k < |keys| ==> AtMost(keys[i][0].word, keys[k][0].word)
    ensures keys[i][0].count > 0 && Ahead(keys, keys[i][0].word)
    ensures keys[i][0].word != last ==> Less(last, keys[i][0].word)
  {
    hide Less;
    AheadFrom(keys, last, i);
    assert Positive(keys[i]) && AtMost(last, keys[i][0].word);
  }

  lemma BehindPositive(written: seq<Entry>, counts: map<Word, int>, last: Word)
    requires Behind(written, counts, last)
    ensures AllPositive(counts) && DistinctWords(written) && Positive(written)
  {
  }

  /** Lines left to read. */
  ghost function Total(keys: seq<seq<Entry>>): (n: nat) {
    if keys == [] then 0 else Total(keys[..|keys| - 1]) + |keys[|keys| - 1]|
  }

  lemma {:induction false} TotalConcat(a: seq<seq<Entry>>, b: seq<seq<Entry>>)
    ensures Total(a + b) == Total(a) + Total(b)
  {
    if b == [] {
      assert a + b == a;
    } else {
      TotalConcat(a, b[..|b| - 1]);
      assert (a + b)[..|a + b| - 1] == a + b[..|b| - 1];
    }
  }

  lemma TotalOne(es: seq<Entry>)
    ensures Total([es]) == |es|
  {
    assert [es][..0] == [];
  }

  lemma AdvanceTotal(keys: seq<seq<Entry>>, i: nat)
    requires i < |keys| && keys[i] != []
    ensures Total(Advance(keys, i)) < Total(keys)
  {
    hide Total;
    assert keys == keys[..i] + ([keys[i]] + keys[i + 1..]);
    TotalConcat(keys[..i], [keys[i]] + keys[i + 1..]);
    TotalConcat([keys[i]], keys[i + 1..]);
    TotalConcat(keys[..i], keys[i + 1..]);
    TotalConcat(keys[..i] + keys[i + 1..], [keys[i][1..]]);
    TotalOne(keys[i]);
    TotalOne(keys[i][1..]);
  }

  lemma LastFlush(written: seq<Entry>, counts: map<Word, int>, file: seq<Entry>, last: Word)
    requires Behind(written, counts, last)
    requires DistinctWords(file) && Positive(file) && forall i :: 0 <= i < |file| ==> file[i].word in counts
    ensures DistinctWords(written + file) && Positive(written + file)
  {
    hide Less;
  }

  lemma AllWritten(written: seq<Entry>, keys: seq<seq<Entry>>, segments: seq<seq<Entry>>)
    requires keys == [] && Balance(written, map[], keys, segments)
    ensures forall w :: Weight(written, w) == WeightAll(segments, w)
  {
    hide Weight;
    forall w
      ensures Weight(written, w) == WeightAll(segments, w)
    {
      assert Weight(written, w) + Get(map[], w) + WeightAll(keys, w) == WeightAll(segments, w);
    }
  }

  // ---------------------------------------------------------------- merge

  method PopMostFrequent(keys: seq<seq<Entry>>) returns (i: nat)
    requires keys != [] && Heap(keys)
    ensures i < |keys| && forall k :: 0 <= k < |keys| ==> keys[i][0].count >= keys[k][0].count
  {
    i := 0;
    for n := 1 to |keys|
      invariant i < n && forall k :: 0 <= k < n ==> keys[i][0].count >= keys[k][0].count
    {
      if keys[i][0].count < keys[n][0].count {
        i := n;
      }
    }
  }

  /** The count files still to be read descend from counts no larger than those already written. */
  ghost predicate Below(keys: seq<seq<Entry>>, out: seq<Entry>) {
    forall k :: 0 <= k < |keys| ==>
      keys[k] != [] && Descending(keys[k]) && forall n :: 0 <= n < |out| ==> out[n].count >= keys[k][0].count
  }

  lemma {:induction false} FlattenConcat(a: seq<seq<Entry>>, b: seq<seq<Entry>>)
    ensures Flatten(a + b) == Flatten(a) + Flatten(b)
  {
    if b == [] {
      assert a + b == a;
    } else {
      FlattenConcat(a, b[..|b| - 1]);
      assert (a + b)[..|a + b| - 1] == a + b[..|b| - 1];
    }
  }

  lemma AdvanceFlatten(keys: seq<seq<Entry>>, i: nat)
    requires i < |keys| && keys[i] != []
    ensures multiset(Flatten(keys)) == multiset(Flatten(Advance(keys, i))) + multiset{keys[i][0]}
  {
    hide Flatten;
    var top := keys[i];
    assert keys == (keys[..i] + [top]) + keys[i + 1..];
    FlattenConcat(keys[..i] + [top], keys[i + 1..]);
    FlattenSnoc(keys[..i], top);
    FlattenConcat(keys[..i], keys[i + 1..]);
    FlattenSnoc(keys[..i] + keys[i + 1..], top[1..]);
    assert top == [top[0]] + top[1..];
  }

  lemma AdvanceBelow(keys: seq<seq<Entry>>, i: nat, out: seq<Entry>)
    requires Below(keys, out) && i < |keys| && keys[i] != []
    requires forall k :: 0 <= k < |keys| ==> keys[k] != [] && keys[i][0].count >= keys[k][0].count
    ensures Below(Advance(keys, i), out + [keys[i][0]])
  {
    hide Advance;
    var keys': seq<seq<Entry>> := Advance(keys, i);
    var out' := out + [keys[i][0]];
    forall k | 0 <= k < |keys'|
      ensures keys'[k] != [] && Descending(keys'[k]) && forall n :: 0 <= n < |out'| ==> out'[n].count >= keys'[k][0].count
    {
      AdvanceFrom(keys, i, k);
      if |keys[i]| > 1 && keys'[k] == keys[i][1..] {
        assert forall n :: 0 <= n < |keys'[k]| ==> keys'[k][n] == keys[i][n + 1];
        assert keys[i][0].count >= keys[i][1].count;
      }
    }
  }

  /** k-way merge of the count files by count. */
  method Merge(files: seq<seq<Entry>>) returns (out: seq<Entry>)
    requires CountFiles(files)
    ensures Descending(out) && multiset(out) == multiset(Flatten(files))
  {
    hide Flatten, Below, Advance, Sorted, Positive;
    var keys := Open(files);
    out := [];
    OpenBelow(files, keys);
    while keys != []
      invariant Below(keys, out) && Descending(out)
      invariant multiset(out) + multiset(Flatten(keys)) == multiset(Flatten(files))
      decreases Total(keys)
    {
      BelowHeap(keys, out);
      var i := PopMostFrequent(keys);
      AdvanceBelow(keys, i, out);
      AdvanceFlatten(keys, i);
      AdvanceTotal(keys, i);
      out := out + [keys[i][0]];
      keys := Advance(keys, i);
    }
    NothingOpen(keys);
  }

  lemma OpenBelow(files: seq<seq<Entry>>, keys: seq<seq<Entry>>)
    requires CountFiles(files) && forall i :: 0 <= i < |keys| ==> keys[i] != [] && keys[i] in files
    ensures Below(keys, [])
  {
    forall k | 0 <= k < |keys|
      ensures Descending(keys[k])
    {
      SortedDescends(keys[k]);
    }
  }

  lemma BelowHeap(keys: seq<seq<Entry>>, out: seq<Entry>)
    requires Below(keys, out)
    ensures Heap(keys) && forall n, k :: 0 <= n < |out| && 0 <= k < |keys| ==> out[n].count >= keys[k][0].count
  {
  }

  // ---------------------------------------------------------------- the whole program

  /** Whatever the size of the tables, the output is the finished table of the input. */
  method SortByFrequency(files: seq<seq<Word>>, kMaxSize: nat) returns (out: seq<Entry>)
    ensures Table(out, files)
  {
    hide Weight, WeightAll, Flatten, OccursAll, Positive, DistinctWords;
    var segments := Input(files, kMaxSize);
    var counted := Combine(segments, kMaxSize);
    out := Merge(counted);
    PermutedShape(Flatten(counted), out);
    forall w
      ensures Weight(out, w) == OccursAll(files, w)
    {
      WeightPermuted(out, Flatten(counted), w);
    }
  }

  /** The in-memory program: count everything in one map and sort it by count. */
  method SortInMemory(words: seq<Word>) returns (out: seq<Entry>)
    ensures Table(out, [words])
  {
    hide Weight, Occurs, Positive, DistinctWords, Get, Before;
    var counts: map<Word, int> := map[];
    NoTally(words[..0]);
    for n := 0 to |words|
      invariant Tallies(counts, words[..n]) && AllPositive(counts)
    {
      TallyStep(counts, words, 0, n);
      Added(counts, words[n], 1);
      assert words[0..n] == words[..n] && words[0..n + 1] == words[..n + 1];
      counts := counts[words[n] := Get(counts, words[n]) + 1];
    }
    out := Output(counts);
    SortedDescends(out);
    assert words[..|words|] == words;
    OneFile(words);
  }

  lemma OneFile(words: seq<Word>)
    ensures forall w :: OccursAll([words], w) == Occurs(words, w)
  {
    assert [words][..0] == [];
  }

  /** External and in-memory sorting print the same lines up to the order among equal counts. */
  method Compare(words: seq<Word>, kMaxSize: nat) returns (external: seq<Entry>, inMemory: seq<Entry>)
    ensures multiset(external) == multiset(inMemory) && |external| == |inMemory|
    ensures forall i :: 0 <= i < |external| ==> external[i].count == inMemory[i].count
  {
    hide Table;
    external := SortByFrequency([words], kMaxSize);
    inMemory := SortInMemory(words);
    AgreeUpToTies(external, inMemory, [words]);
  }
}
