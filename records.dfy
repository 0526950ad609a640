/** One line of the log and what it contributes to a rank's two local
    accumulators (sentiment by user, sentiment by hour). JSON decoding is an
    abstract `parse` function from the stripped line to a `ParseResult`. */
module Records {
  import opened MergeReduce

  datatype Option<T> = None | Some(value: T)

  /** A user is identified by the pair (account id, username). */
  type UserKey = (string, string)

  /** What decoding one stripped line yields: a decode error, or an object
      whose `doc` may lack any of the four fields read. A missing `doc` or
      `account` reads as an empty object, which is all fields `None`. */
  datatype ParseResult =
    | Malformed
    | Record(sentiment: Option<real>, userId: Option<string>, username: Option<string>,
             createdAt: Option<string>)

  /** The two local accumulators of one rank. */
  datatype Accumulators = Accumulators(byUser: map<UserKey, real>, byHour: map<string, real>)

  const Empty := Accumulators(map[], map[])

  /** The characters Python's `str.strip()` removes: the ASCII whitespace
      and separator controls and the Unicode space separators. */
  const Whitespace: set<char> := {
    '\t', '\n', '\U{0B}', '\U{0C}', '\r', '\U{1C}', '\U{1D}', '\U{1E}', '\U{1F}', ' ',
    '\U{85}', '\U{A0}', '\U{1680}',
    '\U{2000}', '\U{2001}', '\U{2002}', '\U{2003}', '\U{2004}', '\U{2005}',
    '\U{2006}', '\U{2007}', '\U{2008}', '\U{2009}', '\U{200A}',
    '\U{2028}', '\U{2029}', '\U{202F}', '\U{205F}', '\U{3000}'
  }

  predicate IsSpace(c: char) {
    c in Whitespace
  }

  predicate AllSpace(s: string) {
    forall i | 0 <= i < |s| :: IsSpace(s[i])
  }

  /** `s.lstrip()`. */
  function TrimStart(s: string): (r: string)
    ensures |r| <= |s|
  {
    if s != [] && IsSpace(s[0]) then TrimStart(s[1..]) else s
  }

  /** `s.rstrip()`. */
  function TrimEnd(s: string): (r: string)
    ensures |r| <= |s|
  {
    if s != [] && IsSpace(s[|s| - 1]) then TrimEnd(s[..|s| - 1]) else s
  }

  /** `lstrip` leaves the suffix after the leading whitespace. */
  lemma {:induction false} TrimStartFacts(s: string)
    ensures TrimStart(s) == s[LeadingSpace(s)..]
    ensures AllSpace(s[..LeadingSpace(s)])
    ensures TrimStart(s) == [] || !IsSpace(TrimStart(s)[0])
  {
    if s != [] && IsSpace(s[0]) {
      TrimStartFacts(s[1..]);
      var n := LeadingSpace(s);
      assert s[1..][n - 1..] == s[n..];
      assert forall j | 1 <= j < n :: s[..n][j] == s[1..][..n - 1][j - 1];
    }
  }

  /** How many characters `lstrip` removes. */
  function LeadingSpace(s: string): nat {
    |s| - |TrimStart(s)|
  }

  /** `rstrip` leaves the prefix before the trailing whitespace. */
  lemma {:induction false} TrimEndFacts(s: string)
    ensures TrimEnd(s) == s[..|TrimEnd(s)|]
    ensures AllSpace(s[|TrimEnd(s)|..])
    ensures TrimEnd(s) == [] || !IsSpace(TrimEnd(s)[|TrimEnd(s)| - 1])
  {
    if s != [] && IsSpace(s[|s| - 1]) {
      var t := s[..|s| - 1];
      TrimEndFacts(t);
      var n := |TrimEnd(s)|;
      assert t[..n] == s[..n];
      assert forall j | 0 <= j < |s| - 1 - n :: s[n..][j] == t[n..][j];
    }
  }

  /** `s.strip()`. */
  function Strip(s: string): (r: string)
    ensures |r| <= |s|
  {
    TrimEnd(TrimStart(s))
  }

  /** The stripped line is a slice of the line with only whitespace around it,
      and neither begins nor ends with whitespace. */
  lemma StripIsSlice(s: string)
    ensures LeadingSpace(s) + |Strip(s)| <= |s|
    ensures Strip(s) == s[LeadingSpace(s)..LeadingSpace(s) + |Strip(s)|]
    ensures AllSpace(s[..LeadingSpace(s)])
    ensures AllSpace(s[LeadingSpace(s) + |Strip(s)|..])
    ensures Strip(s) != [] ==> !IsSpace(Strip(s)[0]) && !IsSpace(Strip(s)[|Strip(s)| - 1])
  {
    var t := TrimStart(s);
    TrimStartFacts(s);
    TrimEndFacts(t);
    SliceOfSuffix(s, LeadingSpace(s), t, TrimEnd(t));
  }

  /** A prefix `r` of the suffix `t` of `s` that starts at `i` is a slice of
      `s`, and what follows `r` in `t` is what follows it in `s`. */
  lemma SliceOfSuffix(s: string, i: nat, t: string, r: string)
    requires i <= |s| && t == s[i..] && |r| <= |t| && r == t[..|r|]
    ensures i + |r| <= |s|
    ensures r == s[i..i + |r|]
    ensures t[|r|..] == s[i + |r|..]
  {
  }

  /** A line strips to nothing exactly when it is all whitespace. */
  lemma StripEmptyIffBlank(s: string)
    ensures Strip(s) == [] <==> AllSpace(s)
  {
    StripIsSlice(s);
    var r, i := Strip(s), LeadingSpace(s);
    if r == [] {
      forall j | 0 <= j < |s|
        ensures IsSpace(s[j])
      {
        if j < i {
          assert s[..i][j] == s[j];
        } else {
          assert s[i + |r|..][j - i] == s[j];
        }
      }
    }
  }

  /** Python truthiness of an optional string: present and non-empty. */
  predicate Truthy(o: Option<string>) {
    o.Some? && o.value != ""
  }

  /** `time[:13]`: the hour bucket `YYYY-MM-DDTHH` of a timestamp. */
  function HourBucket(time: string): (h: string)
    ensures |h| == if |time| < 13 then |time| else 13
    ensures h == time[..|h|]
  {
    if |time| < 13 then time else time[..13]
  }

  /** The record, if any, a line carries: `None` for a whitespace-only line
      or one that fails to decode. */
  function Decode(line: string, parse: string -> ParseResult): (r: Option<ParseResult>)
    ensures r.Some? <==> !AllSpace(line) && parse(Strip(line)).Record?
    ensures r.Some? ==> r.value == parse(Strip(line))
    ensures AllSpace(line) ==> r == None
  {
    StripEmptyIffBlank(line);
    var t := Strip(line);
    if t == [] then None
    else match parse(t)
      case Malformed => None
      case Record(_, _, _, _) => Some(parse(t))
  }

  /** The user accumulator after a record: its sentiment is added under
      (id, username) when both are truthy and the sentiment is present. */
  function UserUpdate(users: map<UserKey, real>, rec: ParseResult): map<UserKey, real> {
    match rec
    case Malformed => users
    case Record(sentiment, userId, username, _) =>
      if Truthy(userId) && Truthy(username) && sentiment.Some?
      then AddTo(users, (userId.value, username.value), sentiment.value)
      else users
  }

  /** The hour accumulator after a record: its sentiment is added under the
      hour bucket when the timestamp is truthy and the sentiment is present. */
  function HourUpdate(hours: map<string, real>, rec: ParseResult): map<string, real> {
    match rec
    case Malformed => hours
    case Record(sentiment, _, _, createdAt) =>
      if Truthy(createdAt) && sentiment.Some?
      then AddTo(hours, HourBucket(createdAt.value), sentiment.value)
      else hours
  }

  /** The accumulators after processing one line. */
  function Step(acc: Accumulators, line: string, parse: string -> ParseResult): Accumulators {
    match Decode(line, parse)
    case None => acc
    case Some(rec) => Accumulators(UserUpdate(acc.byUser, rec), HourUpdate(acc.byHour, rec))
  }

  /** A line contributes nothing: whitespace only, a decode error, or a record
      without a sentiment. */
  predicate Skipped(line: string, parse: string -> ParseResult) {
    var d := Decode(line, parse);
    d.None? || d.value.sentiment.None?
  }

  /** Skipped lines leave both accumulators unchanged. */
  lemma SkippedLineUnchanged(acc: Accumulators, line: string, parse: string -> ParseResult)
    requires Skipped(line, parse)
    ensures Step(acc, line, parse) == acc
  {
  }

  /** A record with a sentiment adds it under (id, username) exactly when both
      are truthy, and under the hour bucket exactly when the timestamp is
      truthy; the two guards are independent and no other key changes. */
  lemma RecordUpdate(acc: Accumulators, line: string, parse: string -> ParseResult)
    requires Decode(line, parse).Some? && Decode(line, parse).value.sentiment.Some?
    ensures var rec, r := Decode(line, parse).value, Step(acc, line, parse);
            var s := rec.sentiment.value;
            && (Truthy(rec.userId) && Truthy(rec.username) ==>
                  var k := (rec.userId.value, rec.username.value);
                  r.byUser.Keys == acc.byUser.Keys + {k} && r.byUser[k] == Get0(acc.byUser, k) + s
                  && forall k' | k' in acc.byUser && k' != k :: r.byUser[k'] == acc.byUser[k'])
            && (!(Truthy(rec.userId) && Truthy(rec.username)) ==> r.byUser == acc.byUser)
            && (Truthy(rec.createdAt) ==>
                  var h := HourBucket(rec.createdAt.value);
                  r.byHour.Keys == acc.byHour.Keys + {h} && r.byHour[h] == Get0(acc.byHour, h) + s
                  && forall h' | h' in acc.byHour && h' != h :: r.byHour[h'] == acc.byHour[h'])
            && (!Truthy(rec.createdAt) ==> r.byHour == acc.byHour)
  {
  }

  /** The accumulators after processing `lines` in order, starting from `acc`. */
  function Fold(acc: Accumulators, lines: seq<string>, parse: string -> ParseResult): Accumulators
    decreases |lines|
  {
    if lines == [] then acc else Fold(Step(acc, lines[0], parse), lines[1..], parse)
  }

  function MergeAcc(a: Accumulators, b: Accumulators): Accumulators {
    Accumulators(Merge(a.byUser, b.byUser), Merge(a.byHour, b.byHour))
  }

  lemma {:induction false} FoldConcat(acc: Accumulators, l1: seq<string>, l2: seq<string>,
                                      parse: string -> ParseResult)
    ensures Fold(acc, l1 + l2, parse) == Fold(Fold(acc, l1, parse), l2, parse)
    decreases |l1|
  {
    if l1 != [] {
      assert (l1 + l2)[1..] == l1[1..] + l2;
      FoldConcat(Step(acc, l1[0], parse), l1[1..], l2, parse);
    } else {
      assert l1 + l2 == l2;
    }
  }

  lemma FoldCons(acc: Accumulators, line: string, rest: seq<string>, parse: string -> ParseResult)
    ensures Fold(acc, [line] + rest, parse) == Fold(Step(acc, line, parse), rest, parse)
  {
    assert ([line] + rest)[1..] == rest;
  }

  /** Inserting a skipped line anywhere changes nothing. */
  lemma FoldIgnoresSkipped(acc: Accumulators, l1: seq<string>, line: string, l2: seq<string>,
                           parse: string -> ParseResult)
    requires Skipped(line, parse)
    ensures Fold(acc, l1 + [line] + l2, parse) == Fold(acc, l1 + l2, parse)
  {
    FoldConcat(acc, l1 + [line], l2, parse);
    FoldConcat(acc, l1, [line], parse);
    FoldConcat(acc, l1, l2, parse);
    var mid := Fold(acc, l1, parse);
    assert Fold(mid, [line], parse) == Fold(Step(mid, line, parse), [], parse);
  }

  /** Processing one line is merging the line's own contribution. */
  lemma StepIsMerge(acc: Accumulators, line: string, parse: string -> ParseResult)
    ensures Step(acc, line, parse) == MergeAcc(acc, Step(Empty, line, parse))
  {
    MergeIdentity(acc.byUser);
    MergeIdentity(acc.byHour);
    match Decode(line, parse)
    case None =>
    case Some(rec) =>
      if Truthy(rec.userId) && Truthy(rec.username) && rec.sentiment.Some? {
        var k, s := (rec.userId.value, rec.username.value), rec.sentiment.value;
        AddToIsMerge(acc.byUser, k, s);
        AddToIsMerge(map[], k, s);
        MergeIdentity(map[k := s]);
      }
      if Truthy(rec.createdAt) && rec.sentiment.Some? {
        var h, s := HourBucket(rec.createdAt.value), rec.sentiment.value;
        AddToIsMerge(acc.byHour, h, s);
        AddToIsMerge(map[], h, s);
        MergeIdentity(map[h := s]);
      }
  }

  /** Folding from `acc` is merging `acc` with the fold from the empty
      accumulators: accumulation distributes over the merge. */
  lemma {:induction false} FoldIsMerge(acc: Accumulators, lines: seq<string>, parse: string -> ParseResult)
    ensures Fold(acc, lines, parse) == MergeAcc(acc, Fold(Empty, lines, parse))
    decreases |lines|
  {
    if lines == [] {
      MergeIdentity(acc.byUser);
      MergeIdentity(acc.byHour);
    } else {
      var one := Step(Empty, lines[0], parse);
      var rest := Fold(Empty, lines[1..], parse);
      FoldIsMerge(Step(acc, lines[0], parse), lines[1..], parse);
      FoldIsMerge(one, lines[1..], parse);
      StepIsMerge(acc, lines[0], parse);
      MergeAssociates(acc.byUser, one.byUser, rest.byUser);
      MergeAssociates(acc.byHour, one.byHour, rest.byHour);
    }
  }

  /** Two consecutive stretches of lines processed separately and merged give
      what processing them in one pass gives. */
  lemma FoldSplitMerge(l1: seq<string>, l2: seq<string>, parse: string -> ParseResult)
    ensures Fold(Empty, l1 + l2, parse) == MergeAcc(Fold(Empty, l1, parse), Fold(Empty, l2, parse))
  {
    FoldConcat(Empty, l1, l2, parse);
    FoldIsMerge(Fold(Empty, l1, parse), l2, parse);
  }
}
