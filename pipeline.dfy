/**
  The driver `main`, without argument parsing, the HTTP fetch and the chart:
  tokenize, stop on an empty token list, cut the tokens into one slice per
  worker, count each slice, merge the partial counts, rank.
*/
module Pipeline {
  import opened Seqs
  import opened Tokenizer
  import opened Partitioner
  import opened Counting
  import opened Ranker

  /** How a run of main ends once the text has been fetched. */
  datatype Outcome =
    | InvalidTop              // a top count below 1 refused before any work
    | NoWordsFound            // "No words found.", before any slicing
    | UnpackFailed            // `words, freqs = zip(*most_common)` on an empty ranking
    | Shown(ranked: seq<Entry>)   // the pairs handed to the bar chart

  /** The combined count does not depend on the number of workers. */
  lemma WorkerCountInvariance(words: seq<Token>, workers: nat)
    requires workers >= 1
    ensures Total(MapStage(Partition(words, workers))) == Count(words)
  {
    ReduceOfCounts(Partition(words, workers));
    PartitionFlatten(words, workers);
  }

  /** The two runs with different worker counts merge to the same table. */
  lemma SameTotalForAnyWorkers(words: seq<Token>, w1: nat, w2: nat)
    requires w1 >= 1 && w2 >= 1
    ensures Total(MapStage(Partition(words, w1))) == Total(MapStage(Partition(words, w2)))
  {
    WorkerCountInvariance(words, w1);
    WorkerCountInvariance(words, w2);
  }

  lemma CountNonEmpty(words: seq<Token>)
    requires words != []
    ensures |Count(words)| >= 1
  {
  }

  /**
    Slicing, pool.map(map_worker, slices), reduce_counters and most_common,
    in that order: the ranking is a most_common answer for the single-pass
    count of `words`, whatever the worker count.
  */
  method CountAndRank(words: seq<Token>, workers: nat, top: int) returns (ranked: seq<Entry>)
    requires workers >= 1
    ensures IsMostCommon(Count(words), top, ranked)
  {
    var slices := Partition(words, workers);
    var partial := MapStage(slices);
    var total := ReduceCounters(partial);
    WorkerCountInvariance(words, workers);
    ranked := MostCommon(total, top);
  }

  /**
    main as written: nothing checks --top, so for top <= 0 most_common returns
    no pair and unpacking zip(*[]) into two names raises.
  */
  method WordCountAsWritten(text: string, workers: nat, top: int) returns (out: Outcome)
    requires workers >= 1
    ensures out == NoWordsFound <==> Preprocess(text) == []
    ensures out == UnpackFailed <==> Preprocess(text) != [] && top <= 0
    ensures out.Shown? ==> IsMostCommon(Count(Preprocess(text)), top, out.ranked)
    ensures !out.InvalidTop?
  {
    var words := Preprocess(text);
    if words == [] {
      return NoWordsFound;
    }
    var ranked := CountAndRank(words, workers, top);
    CountNonEmpty(words);
    if ranked == [] {
      return UnpackFailed;
    }
    out := Shown(ranked);
  }

  /** A one-word text with --top 0 reaches the failing unpack. */
  method TopZeroFails() returns (out: Outcome)
    ensures out == UnpackFailed
  {
    NoTokensIffNoAlnum("a");
    assert IsAsciiAlnum("a"[0]);
    out := WordCountAsWritten("a", 1, 0);
  }

  /**
    main with --top required to be at least 1: the chart always receives at
    least one pair, and the run stops before any slicing exactly when the text
    has no ASCII letter or digit.
  */
  method WordCount(text: string, workers: nat, top: int) returns (out: Outcome)
    requires workers >= 1
    ensures out == InvalidTop <==> top < 1
    ensures out == NoWordsFound <==> top >= 1 && Preprocess(text) == []
    ensures out == NoWordsFound <==> top >= 1 && forall i :: 0 <= i < |text| ==> !IsAsciiAlnum(text[i])
    ensures out != UnpackFailed
    ensures out.Shown? ==> 1 <= |out.ranked| <= top
    ensures out.Shown? ==> IsMostCommon(Count(Preprocess(text)), top, out.ranked)
  {
    if top < 1 {
      return InvalidTop;
    }
    var words := Preprocess(text);
    NoTokensIffNoAlnum(text);
    if words == [] {
      return NoWordsFound;
    }
    var ranked := CountAndRank(words, workers, top);
    CountNonEmpty(words);
    out := Shown(ranked);
  }
}
