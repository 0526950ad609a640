/** One rank's local phase: realign its start offset, then read whole lines
    while the offset is before its end offset, folding each record into the
    two local accumulators. */
module Scan {
  import opened Lines
  import opened Records
  import opened MergeReduce

  /** Processing one line: strip it, skip it when blank or undecodable, and
      add a record's sentiment to the user and hour accumulators under their
      independent guards. */
  method ProcessLine(users: map<UserKey, real>, hours: map<string, real>, line: string,
                     parse: string -> ParseResult)
    returns (byUser: map<UserKey, real>, byHour: map<string, real>)
    ensures Accumulators(byUser, byHour) == Step(Accumulators(users, hours), line, parse)
  {
    byUser, byHour := users, hours;
    var stripped := Strip(line);
    if stripped == [] {
      return;
    }
    match parse(stripped) {
      case Malformed =>
      case Record(sentiment, userId, username, createdAt) =>
        if Truthy(userId) && Truthy(username) && sentiment.Some? {
          var key := (userId.value, username.value);
          byUser := byUser[key := Get0(byUser, key) + sentiment.value];
        }
        if Truthy(createdAt) && sentiment.Some? {
          var hour := HourBucket(createdAt.value);
          byHour := byHour[hour := Get0(byHour, hour) + sentiment.value];
        }
    }
  }

  /** Where the loop stops, nothing is left to fold. */
  lemma ScanDone(text: string, pos: nat, end: nat, acc: Accumulators, parse: string -> ParseResult)
    requires pos >= end || ReadLine(text, pos) == []
    ensures Fold(acc, ReadLines(text, pos, end), parse) == acc
  {
  }

  /** One iteration folds the line at `pos` and moves past it. */
  lemma ScanStep(text: string, pos: nat, end: nat, acc: Accumulators, acc': Accumulators,
                 target: Accumulators, parse: string -> ParseResult)
    requires pos < end && pos < |text|
    requires Fold(acc, ReadLines(text, pos, end), parse) == target
    requires acc' == Step(acc, ReadLine(text, pos), parse)
    ensures Fold(acc', ReadLines(text, LineEnd(text, pos), end), parse) == target
  {
    ReadLinesCons(text, pos, end);
    FoldCons(acc, ReadLine(text, pos), ReadLines(text, LineEnd(text, pos), end), parse);
  }

  /** The scan of one rank over the file `text`, where a stream offset is an
      index into `text`. */
  method ScanPartition(text: string, start: nat, end: nat, parse: string -> ParseResult)
    returns (byUser: map<UserKey, real>, byHour: map<string, real>)
    ensures Accumulators(byUser, byHour) == Fold(Empty, ReadLines(text, Realign(text, start), end), parse)
  {
    byUser, byHour := map[], map[];
    var offset: nat := 0;
    if start > 0 {
      offset := start;
      var partial := ReadLine(text, offset);
      offset := LineEnd(text, offset);
    }
    ghost var target := Fold(Empty, ReadLines(text, offset, end), parse);
    ghost var acc := Empty;
    while true
      invariant Accumulators(byUser, byHour) == acc
      invariant Fold(acc, ReadLines(text, offset, end), parse) == target
      decreases |text| - offset
    {
      var pos := offset;
      if pos >= end {
        ScanDone(text, pos, end, acc, parse);
        break;
      }
      var line := ReadLine(text, offset);
      offset := LineEnd(text, offset);
      if line == [] {
        ScanDone(text, pos, end, acc, parse);
        break;
      }
      byUser, byHour := ProcessLine(byUser, byHour, line, parse);
      ScanStep(text, pos, end, acc, Step(acc, line, parse), target, parse);
      acc := Step(acc, line, parse);
    }
  }
}
