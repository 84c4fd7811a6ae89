/** Duplicate removal of WebScraper/wrangling.py: entries are cleaned, keyed
    by a hash of their question's plain text, and kept only the first time a
    key is seen. The md5 digest is a parameter `hash`: the model keys by
    whatever it returns. */
module Dedup {
  import opened Results
  import opened Strings
  import opened HtmlTree

  /** A JSON field that `clean_html` is applied to: a string, which is
      parsed as HTML, or any other JSON value. */
  datatype Field = Html(doc: seq<Node>) | NotText

  /** The `question` field of a scraped entry: a string, an object with a
      `content` field (possibly missing), or some other JSON value. */
  datatype RawQuestion = QText(doc: seq<Node>) | QObject(content: Option<Field>) | QOther

  /** A scraped entry; `None` is a missing key. */
  datatype RawEntry = RawEntry(question: Option<RawQuestion>, answers: Option<seq<Field>>)

  /** The cleaned question: stored as it came, or under `content`. */
  datatype Question = Plain(html: seq<Node>) | Wrapped(content: seq<Node>)

  /** A processed entry, as `process_file` builds it. */
  datatype Entry = Entry(question: Option<Question>, answers: Option<seq<seq<Node>>>)

  /** `clean_html` on any JSON value: a non-string gives the empty string. */
  function CleanField(f: Field): seq<Node> {
    match f
    case Html(doc) => CleanForest(doc)
    case NotText => []
  }

  /** The answers that are strings, cleaned, in their order. */
  function StringAnswers(answers: seq<Field>): (r: seq<seq<Node>>)
    ensures |r| <= |answers|
    ensures forall i :: 0 <= i < |answers| && answers[i].Html? ==> CleanForest(answers[i].doc) in r
    decreases |answers|
  {
    if |answers| == 0 then []
    else
      var rest := StringAnswers(answers[1..]);
      assert forall i :: 1 <= i < |answers| ==> answers[i] == answers[1..][i - 1];
      match answers[0]
      case Html(doc) => [CleanForest(doc)] + rest
      case NotText => rest
  }

  /** The number of string answers. */
  function CountText(answers: seq<Field>): nat
    decreases |answers|
  {
    if |answers| == 0 then 0 else (if answers[0].Html? then 1 else 0) + CountText(answers[1..])
  }

  /** Cleaning one scraped entry. A question that is neither a string nor
      an object is dropped; a list of answers keeps only its strings. */
  function ProcessEntry(raw: RawEntry): (r: Entry)
    ensures raw.question.None? || raw.question.value.QOther? <==> r.question.None?
    ensures raw.answers.None? <==> r.answers.None?
  {
    var q :=
      match raw.question
      case None => None
      case Some(QText(doc)) => Some(Plain(CleanForest(doc)))
      case Some(QObject(content)) =>
        Some(Wrapped(match content case None => CleanForest([]) case Some(f) => CleanField(f)))
      case Some(QOther) => None;
    var a := if raw.answers.None? then None else Some(StringAnswers(raw.answers.value));
    Entry(q, a)
  }

  /** The question markup `extract_question_content` picks, the empty
      document when the question is missing. */
  function QuestionDoc(e: Entry): seq<Node> {
    match e.question
    case None => []
    case Some(Plain(html)) => html
    case Some(Wrapped(content)) => content
  }

  /** `clean_question_content`: the cleaned markup's text, whitespace runs
      collapsed, trimmed, lower-cased. */
  function CanonicalText(doc: seq<Node>): string {
    Lower(NormalizeSpace(TextOf(CleanForest(doc))))
  }

  /** `hash_entry`: the hash of the canonical question text. */
  function EntryHash(e: Entry, hash: string -> string): string {
    hash(CanonicalText(QuestionDoc(e)))
  }

  lemma {:induction false} StringAnswersCount(answers: seq<Field>)
    ensures |StringAnswers(answers)| == CountText(answers)
    decreases |answers|
  {
    if |answers| > 0 {
      StringAnswersCount(answers[1..]);
    }
  }

  /** Keeping string answers distributes over concatenation: what is kept
      of each answer depends on that answer alone. */
  lemma {:induction false} StringAnswersAppend(a: seq<Field>, b: seq<Field>)
    ensures StringAnswers(a + b) == StringAnswers(a) + StringAnswers(b)
    decreases |a|
  {
    if |a| == 0 {
      assert a + b == b;
    } else {
      assert (a + b)[0] == a[0];
      assert (a + b)[1..] == a[1..] + b;
      StringAnswersAppend(a[1..], b);
    }
  }

  /** A question given as a string and the same markup given under
      `content` get the same key whatever the answers are, and cleaning the
      stored question again before hashing changes nothing. */
  lemma EntryHashOfRaw(doc: seq<Node>, a1: Option<seq<Field>>, a2: Option<seq<Field>>, hash: string -> string)
    ensures EntryHash(ProcessEntry(RawEntry(Some(QText(doc)), a1)), hash) == hash(CanonicalText(doc))
    ensures EntryHash(ProcessEntry(RawEntry(Some(QObject(Some(Html(doc)))), a2)), hash) == hash(CanonicalText(doc))
  {
    EntryHashOfDoc(RawEntry(Some(QText(doc)), a1), hash);
    EntryHashOfDoc(RawEntry(Some(QObject(Some(Html(doc)))), a2), hash);
  }

  /** An entry is keyed by the canonical text of its scraped question's
      markup. */
  lemma EntryHashOfDoc(raw: RawEntry, hash: string -> string)
    ensures EntryHash(ProcessEntry(raw), hash) == hash(CanonicalText(RawQuestionDoc(raw.question)))
  {
    CanonicalTextCleaned(RawQuestionDoc(raw.question));
    ProcessedQuestionDoc(raw);
  }

  /** The markup of a scraped question: the string itself, or the string
      under `content`; the empty document otherwise. */
  function RawQuestionDoc(q: Option<RawQuestion>): seq<Node> {
    match q
    case Some(QText(doc)) => doc
    case Some(QObject(Some(Html(doc)))) => doc
    case _ => []
  }

  /** The question `hash_entry` reads from a processed entry is the cleaned
      markup of the scraped question, whatever the answers are. */
  lemma ProcessedQuestionDoc(raw: RawEntry)
    ensures QuestionDoc(ProcessEntry(raw)) == CleanForest(RawQuestionDoc(raw.question))
  {
    assert CleanForest([]) == [];
  }

  /** Cleaning markup before taking its canonical text changes nothing. */
  lemma CanonicalTextCleaned(doc: seq<Node>)
    ensures CanonicalText(CleanForest(doc)) == CanonicalText(doc)
  {
    CleanForestIdempotent(doc);
  }

  /** An entry without a usable question is keyed by the hash of the empty
      text, so all such entries collide. */
  lemma EntryHashNoQuestion(raw: RawEntry, hash: string -> string)
    requires || raw.question.None? || raw.question == Some(QOther)
             || raw.question == Some(QObject(None)) || raw.question == Some(QObject(Some(NotText)))
    ensures EntryHash(ProcessEntry(raw), hash) == hash([])
  {
    assert CleanForest([]) == [];
    assert TextOf([]) == [];
    assert NormalizeSpace([]) == [];
  }

  // ---------------------------------------------------------------------
  // process_file

  /** Where a duplicate was found: its index in the file, and the file. */
  datatype Location = Location(index: nat, file: string)

  /** One duplicate, in the order `process_file` meets them. */
  datatype DupRecord = DupRecord(key: string, location: Location)

  /** The combiner's `hash_set` and, as a log in order, what it appended to
      `duplicate_indices`. */
  datatype State = State(seen: set<string>, log: seq<DupRecord>)

  /** What one file leaves behind: the new state and the entries it kept. */
  datatype FileResult = FileResult(state: State, kept: seq<Entry>)

  /** The processed entries of a file, in order. */
  function ProcessAll(data: seq<RawEntry>): (r: seq<Entry>)
    ensures |r| == |data|
    ensures forall i :: 0 <= i < |data| ==> r[i] == ProcessEntry(data[i])
  {
    seq(|data|, i requires 0 <= i < |data| => ProcessEntry(data[i]))
  }

  /** The dedup loop of `process_file` over the first `n` processed
      entries, with `key` standing for `hash_entry`. */
  function DedupPrefix(st: State, file: string, entries: seq<Entry>, n: nat, key: Entry -> string): FileResult
    requires n <= |entries|
    decreases n
  {
    if n == 0 then FileResult(st, [])
    else
      var prev := DedupPrefix(st, file, entries, n - 1, key);
      var k := key(entries[n - 1]);
      if k in prev.state.seen then
        FileResult(State(prev.state.seen, prev.state.log + [DupRecord(k, Location(n - 1, file))]), prev.kept)
      else
        FileResult(State(prev.state.seen + {k}, prev.state.log), prev.kept + [entries[n - 1]])
  }

  /** `hash_entry` with the digest `hash`. */
  function KeyBy(hash: string -> string): Entry -> string {
    e => EntryHash(e, hash)
  }

  /** `process_file`: every entry of the file cleaned, then deduplicated in
      order. */
  function ProcessFile(st: State, file: string, data: seq<RawEntry>, hash: string -> string): FileResult {
    ProcessFileBy(st, file, data, KeyBy(hash))
  }

  /** `process_file` for any key function. */
  function ProcessFileBy(st: State, file: string, data: seq<RawEntry>, key: Entry -> string): FileResult {
    var entries := ProcessAll(data);
    DedupPrefix(st, file, entries, |entries|, key)
  }

  /** The `i`-th entry's key is new: not seen before the file, and not the
      key of an earlier entry of the file. */
  predicate FirstOccurrence(seen: set<string>, entries: seq<Entry>, i: nat, key: Entry -> string)
    requires i < |entries|
  {
    key(entries[i]) !in seen && forall j :: 0 <= j < i ==> key(entries[j]) != key(entries[i])
  }

  /** Reference definition of what a file keeps: the entries, among the
      first `n`, whose key is new. */
  function Firsts(seen: set<string>, entries: seq<Entry>, n: nat, key: Entry -> string): seq<Entry>
    requires n <= |entries|
    decreases n
  {
    if n == 0 then []
    else Firsts(seen, entries, n - 1, key) + (if FirstOccurrence(seen, entries, n - 1, key) then [entries[n - 1]] else [])
  }

  /** Reference definition of the duplicates a file logs: the entries,
      among the first `n`, whose key is not new, each at its index. */
  function Repeats(seen: set<string>, file: string, entries: seq<Entry>, n: nat, key: Entry -> string): seq<DupRecord>
    requires n <= |entries|
    decreases n
  {
    if n == 0 then []
    else
      Repeats(seen, file, entries, n - 1, key)
      + (if FirstOccurrence(seen, entries, n - 1, key) then [] else [DupRecord(key(entries[n - 1]), Location(n - 1, file))])
  }

  /** The keys of the first `n` entries. */
  function KeysUpTo(entries: seq<Entry>, n: nat, key: Entry -> string): set<string>
    requires n <= |entries|
  {
    set j | 0 <= j < n :: key(entries[j])
  }

  /** The keys of some entries. */
  function KeysOf(entries: seq<Entry>, key: Entry -> string): set<string> {
    set e | e in entries :: key(e)
  }

  /** No two of the entries share a key. */
  predicate KeysDistinct(entries: seq<Entry>, key: Entry -> string) {
    forall a, b :: 0 <= a < b < |entries| ==> key(entries[a]) != key(entries[b])
  }

  /** After `n` entries the hash set holds the earlier keys and those of the
      `n` entries; the file keeps exactly the entries with a new key and logs
      exactly the others, each at its index. */
  lemma {:induction false} DedupPrefixReference(st: State, file: string, entries: seq<Entry>, n: nat, key: Entry -> string)
    requires n <= |entries|
    ensures DedupPrefix(st, file, entries, n, key).state.seen == st.seen + KeysUpTo(entries, n, key)
    ensures DedupPrefix(st, file, entries, n, key).kept == Firsts(st.seen, entries, n, key)
    ensures DedupPrefix(st, file, entries, n, key).state.log == st.log + Repeats(st.seen, file, entries, n, key)
    decreases n
  {
    if n > 0 {
      DedupPrefixReference(st, file, entries, n - 1, key);
      var k := key(entries[n - 1]);
      assert KeysUpTo(entries, n, key) == KeysUpTo(entries, n - 1, key) + {k};
      assert k in st.seen + KeysUpTo(entries, n - 1, key) <==> !FirstOccurrence(st.seen, entries, n - 1, key);
    }
  }

  /** Every entry of the file is either kept or logged as a duplicate. */
  lemma {:induction false} FirstsRepeatsCount(seen: set<string>, file: string, entries: seq<Entry>, n: nat, key: Entry -> string)
    requires n <= |entries|
    ensures |Firsts(seen, entries, n, key)| + |Repeats(seen, file, entries, n, key)| == n
    decreases n
  {
    if n > 0 {
      FirstsRepeatsCount(seen, file, entries, n - 1, key);
    }
  }

  /** The hash set grows by exactly the keys of the kept entries. */
  lemma {:induction false} DedupPrefixSeen(st: State, file: string, entries: seq<Entry>, n: nat, key: Entry -> string)
    requires n <= |entries|
    ensures var r := DedupPrefix(st, file, entries, n, key);
      r.state.seen == st.seen + KeysOf(r.kept, key)
    decreases n
  {
    if n > 0 {
      DedupPrefixSeen(st, file, entries, n - 1, key);
      var prev := DedupPrefix(st, file, entries, n - 1, key);
      var e := entries[n - 1];
      if key(e) !in prev.state.seen {
        assert KeysOf(prev.kept + [e], key) == KeysOf(prev.kept, key) + {key(e)};
      }
    }
  }

  /** The entries a file keeps have keys that were not seen before the file. */
  lemma {:induction false} DedupPrefixFresh(st: State, file: string, entries: seq<Entry>, n: nat, key: Entry -> string)
    requires n <= |entries|
    ensures forall e :: e in DedupPrefix(st, file, entries, n, key).kept ==> key(e) !in st.seen
    decreases n
  {
    if n > 0 {
      DedupPrefixFresh(st, file, entries, n - 1, key);
      DedupPrefixSeen(st, file, entries, n - 1, key);
    }
  }

  /** No two entries a file keeps share a key. */
  lemma {:induction false} DedupPrefixDistinct(st: State, file: string, entries: seq<Entry>, n: nat, key: Entry -> string)
    requires n <= |entries|
    ensures KeysDistinct(DedupPrefix(st, file, entries, n, key).kept, key)
    decreases n
  {
    if n > 0 {
      DedupPrefixDistinct(st, file, entries, n - 1, key);
      DedupPrefixSeen(st, file, entries, n - 1, key);
      var prev := DedupPrefix(st, file, entries, n - 1, key);
      var e := entries[n - 1];
      if key(e) !in prev.state.seen {
        var kept := prev.kept + [e];
        assert forall a :: 0 <= a < |prev.kept| ==> key(kept[a]) in KeysOf(prev.kept, key);
        assert KeysDistinct(kept, key);
      }
    }
  }

  /** The hash set grows by one for each entry a file keeps. */
  lemma {:induction false} DedupPrefixGrowth(st: State, file: string, entries: seq<Entry>, n: nat, key: Entry -> string)
    requires n <= |entries|
    ensures var r := DedupPrefix(st, file, entries, n, key);
      |r.state.seen| == |st.seen| + |r.kept|
    decreases n
  {
    if n > 0 {
      DedupPrefixGrowth(st, file, entries, n - 1, key);
    }
  }

  /** The entries a file keeps have keys that were not seen before, pairwise
      distinct, and the hash set grows by one for each of them. */
  lemma DedupPrefixKept(st: State, file: string, entries: seq<Entry>, n: nat, key: Entry -> string)
    requires n <= |entries|
    ensures var r := DedupPrefix(st, file, entries, n, key);
      && KeysDistinct(r.kept, key)
      && (forall e :: e in r.kept ==> key(e) !in st.seen)
      && |r.state.seen| == |st.seen| + |r.kept|
  {
    DedupPrefixFresh(st, file, entries, n, key);
    DedupPrefixDistinct(st, file, entries, n, key);
    DedupPrefixGrowth(st, file, entries, n, key);
  }

  /** `process_file` keeps an entry if and only if its key is new, and logs
      the others as duplicates; together they account for every entry. */
  lemma ProcessFileDedup(st: State, file: string, data: seq<RawEntry>, key: Entry -> string)
    ensures var r := ProcessFileBy(st, file, data, key);
      var entries := ProcessAll(data);
      && r.kept == Firsts(st.seen, entries, |data|, key)
      && r.state.log == st.log + Repeats(st.seen, file, entries, |data|, key)
      && r.state.seen == st.seen + KeysUpTo(entries, |data|, key)
      && |r.kept| + (|r.state.log| - |st.log|) == |data|
      && KeysDistinct(r.kept, key)
  {
    var entries := ProcessAll(data);
    DedupPrefixReference(st, file, entries, |data|, key);
    FirstsRepeatsCount(st.seen, file, entries, |data|, key);
    DedupPrefixKept(st, file, entries, |data|, key);
  }

  // ---------------------------------------------------------------------
  // duplicate_indices

  /** One entry of `duplicate_indices`: a key and where it was repeated. */
  datatype DupGroup = DupGroup(key: string, locations: seq<Location>)

  /** The position of the group for `k`, if there is one. */
  function FindGroup(groups: seq<DupGroup>, k: string): (r: Option<nat>)
    ensures r.Some? ==> r.value < |groups| && groups[r.value].key == k
    ensures r.None? <==> forall i :: 0 <= i < |groups| ==> groups[i].key != k
    decreases |groups|
  {
    if |groups| == 0 then None
    else if groups[0].key == k then Some(0)
    else match FindGroup(groups[1..], k)
      case None => None
      case Some(i) => Some(i + 1)
  }

  /** Appending one location under its key, creating the group at the end
      the first time the key is met, as `combine_files`'s dict does. */
  function AddRecord(groups: seq<DupGroup>, d: DupRecord): seq<DupGroup> {
    match FindGroup(groups, d.key)
    case Some(i) => groups[i := DupGroup(d.key, groups[i].locations + [d.location])]
    case None => groups + [DupGroup(d.key, [d.location])]
  }

  /** `duplicate_indices` as the dict the log builds. */
  function GroupByKey(log: seq<DupRecord>): seq<DupGroup>
    decreases |log|
  {
    if |log| == 0 then [] else AddRecord(GroupByKey(log[..|log| - 1]), log[|log| - 1])
  }

  /** The locations logged under `k`, in order. */
  function LocationsOf(log: seq<DupRecord>, k: string): seq<Location>
    decreases |log|
  {
    if |log| == 0 then []
    else LocationsOf(log[..|log| - 1], k) + (if log[|log| - 1].key == k then [log[|log| - 1].location] else [])
  }

  /** The number of locations over all groups. */
  function TotalLocations(groups: seq<DupGroup>): nat
    decreases |groups|
  {
    if |groups| == 0 then 0 else |groups[0].locations| + TotalLocations(groups[1..])
  }

  /** No two groups share a key. */
  predicate GroupKeysDistinct(groups: seq<DupGroup>) {
    forall a, b :: 0 <= a < b < |groups| ==> groups[a].key != groups[b].key
  }

  lemma {:induction false} TotalLocationsUpdate(groups: seq<DupGroup>, i: nat, g: DupGroup)
    requires i < |groups|
    ensures TotalLocations(groups[i := g]) + |groups[i].locations| == TotalLocations(groups) + |g.locations|
    decreases |groups|
  {
    if i > 0 {
      assert groups[i := g][1..] == groups[1..][i - 1 := g];
      TotalLocationsUpdate(groups[1..], i - 1, g);
    }
  }

  lemma {:induction false} TotalLocationsAppend(groups: seq<DupGroup>, g: DupGroup)
    ensures TotalLocations(groups + [g]) == TotalLocations(groups) + |g.locations|
    decreases |groups|
  {
    if |groups| > 0 {
      assert (groups + [g])[1..] == groups[1..] + [g];
      TotalLocationsAppend(groups[1..], g);
    }
  }

  /** The groups list every logged location exactly once. */
  lemma {:induction false} GroupByKeyTotal(log: seq<DupRecord>)
    ensures TotalLocations(GroupByKey(log)) == |log|
    decreases |log|
  {
    if |log| > 0 {
      var groups := GroupByKey(log[..|log| - 1]);
      var d := log[|log| - 1];
      GroupByKeyTotal(log[..|log| - 1]);
      match FindGroup(groups, d.key)
      case Some(i) => TotalLocationsUpdate(groups, i, DupGroup(d.key, groups[i].locations + [d.location]));
      case None => TotalLocationsAppend(groups, DupGroup(d.key, [d.location]));
    }
  }

  /** Every logged key has a group. */
  lemma {:induction false} GroupByKeyFound(log: seq<DupRecord>)
    ensures forall d :: d in log ==> FindGroup(GroupByKey(log), d.key).Some?
    decreases |log|
  {
    if |log| > 0 {
      var init := log[..|log| - 1];
      var groups := GroupByKey(init);
      var d := log[|log| - 1];
      GroupByKeyFound(init);
      var r := GroupByKey(log);
      assert |groups| <= |r| && forall i :: 0 <= i < |groups| ==> r[i].key == groups[i].key;
      forall e | e in log
        ensures FindGroup(r, e.key).Some?
      {
        if e in init {
          var j := FindGroup(groups, e.key).value;
          assert r[j].key == e.key;
        } else {
          assert e == d;
          match FindGroup(groups, d.key)
          case Some(i) => assert r[i].key == d.key;
          case None => assert r[|groups|].key == d.key;
        }
      }
    }
  }

  /** No two groups share a key. */
  lemma {:induction false} GroupByKeyDistinct(log: seq<DupRecord>)
    ensures GroupKeysDistinct(GroupByKey(log))
    decreases |log|
  {
    if |log| > 0 {
      GroupByKeyDistinct(log[..|log| - 1]);
    }
  }

  /** There is one group per repeated key, and each holds exactly the
      locations logged under that key, in order. */
  lemma {:induction false} GroupByKeyLocations(log: seq<DupRecord>)
    ensures GroupKeysDistinct(GroupByKey(log))
    ensures forall i :: 0 <= i < |GroupByKey(log)| ==> GroupByKey(log)[i].locations == LocationsOf(log, GroupByKey(log)[i].key)
    ensures forall d :: d in log ==> FindGroup(GroupByKey(log), d.key).Some?
    decreases |log|
  {
    GroupByKeyDistinct(log);
    GroupByKeyFound(log);
    if |log| > 0 {
      var init := log[..|log| - 1];
      var groups := GroupByKey(init);
      var d := log[|log| - 1];
      GroupByKeyLocations(init);
      var r := GroupByKey(log);
      forall i | 0 <= i < |r|
        ensures r[i].locations == LocationsOf(log, r[i].key)
      {
        if i < |groups| && groups[i].key != d.key {
          assert r[i] == groups[i];
        } else if i == |groups| {
          assert FindGroup(groups, d.key).None?;
          assert LocationsOf(init, d.key) == [] by {
            assert forall e :: e in init ==> e.key != d.key;
            LocationsOfAbsent(init, d.key);
          }
        }
      }
    }
  }

  /** A key nothing was logged under has no locations. */
  lemma {:induction false} LocationsOfAbsent(log: seq<DupRecord>, k: string)
    requires forall d :: d in log ==> d.key != k
    ensures LocationsOf(log, k) == []
    decreases |log|
  {
    if |log| > 0 {
      assert log[|log| - 1] in log;
      LocationsOfAbsent(log[..|log| - 1], k);
    }
  }

  // ---------------------------------------------------------------------
  // combine_files

  /** The combiner's fields: `hash_set` with the duplicate log, and
      `unique_entries`. They persist from one call to the next. */
  datatype Combiner = Combiner(state: State, unique: seq<Entry>)

  /** A combiner as `__init__` leaves it. */
  const Fresh: Combiner := Combiner(State({}, []), [])

  /** A file given to `combine_files`: its path and the entries it holds. */
  datatype FileInput = FileInput(path: string, data: seq<RawEntry>)

  /** The statistics dict `combine_files` returns. */
  datatype Stats = Stats(
    originalFileCounts: map<string, nat>,
    totalOriginalEntries: int,
    uniqueEntries: nat,
    duplicatesRemoved: int,
    duplicateIndices: seq<DupGroup>)

  /** A file after cleaning: its path and its processed entries. Cleaning
      is per entry and pure, so cleaning every file before the loop gives
      what `process_file` computes inside it. */
  datatype Batch = Batch(path: string, entries: seq<Entry>)

  /** Every file cleaned. */
  function Prepare(files: seq<FileInput>): (r: seq<Batch>)
    ensures |r| == |files|
    ensures forall i :: 0 <= i < |files| ==> r[i] == Batch(files[i].path, ProcessAll(files[i].data))
  {
    seq(|files|, i requires 0 <= i < |files| => Batch(files[i].path, ProcessAll(files[i].data)))
  }

  /** The loop state of `combine_files` after `n` files. */
  datatype Progress = Progress(combiner: Combiner, counts: map<string, nat>, total: nat)

  /** The loop of `combine_files` over the first `n` files, keyed by `key`:
      the counts and the total are taken from what each file kept. */
  function CombinePrefix(c: Combiner, batches: seq<Batch>, n: nat, key: Entry -> string): Progress
    requires n <= |batches|
    decreases n
  {
    if n == 0 then Progress(c, map[], 0)
    else
      var p := CombinePrefix(c, batches, n - 1, key);
      var b := batches[n - 1];
      var r := DedupPrefix(p.combiner.state, b.path, b.entries, |b.entries|, key);
      Progress(Combiner(r.state, p.combiner.unique + r.kept), p.counts[b.path := |r.kept|], p.total + |r.kept|)
  }

  /** `combine_files` as written: the new combiner and its statistics. */
  function CombineFiles(c: Combiner, files: seq<FileInput>, hash: string -> string): (Combiner, Stats) {
    CombineBatches(c, Prepare(files), KeyBy(hash))
  }

  /** `combine_files` on cleaned files, for any key function. */
  function CombineBatches(c: Combiner, batches: seq<Batch>, key: Entry -> string): (Combiner, Stats) {
    var p := CombinePrefix(c, batches, |batches|, key);
    var unique := |p.combiner.unique|;
    (p.combiner, Stats(p.counts, p.total, unique, p.total - unique, GroupByKey(p.combiner.state.log)))
  }

  /** The number of entries in the first `n` files. */
  function InputSize(batches: seq<Batch>, n: nat): nat
    requires n <= |batches|
    decreases n
  {
    if n == 0 then 0 else InputSize(batches, n - 1) + |batches[n - 1].entries|
  }

  /** The entries each file held before deduplication; a later file with
      the same path replaces an earlier one, as in `combine_files`'s dict. */
  function InputCounts(batches: seq<Batch>, n: nat): map<string, nat>
    requires n <= |batches|
    decreases n
  {
    if n == 0 then map[] else InputCounts(batches, n - 1)[batches[n - 1].path := |batches[n - 1].entries|]
  }

  /** The statistics the report means: counts and the total taken from the
      input, and the number of entries this call dropped. */
  function IntendedStats(c: Combiner, files: seq<FileInput>, hash: string -> string): Stats {
    IntendedBatchStats(c, Prepare(files), KeyBy(hash))
  }

  /** The intended statistics on cleaned files, for any key function. */
  function IntendedBatchStats(c: Combiner, batches: seq<Batch>, key: Entry -> string): Stats {
    var p := CombinePrefix(c, batches, |batches|, key);
    var total := InputSize(batches, |batches|);
    Stats(InputCounts(batches, |batches|), total, |p.combiner.unique|,
          total - (|p.combiner.unique| - |c.unique|), GroupByKey(p.combiner.state.log))
  }

  /** Each file's entries are either added to the unique list or logged;
      the as-written total counts only the added ones. */
  lemma {:induction false} CombinePrefixCounts(c: Combiner, batches: seq<Batch>, n: nat, key: Entry -> string)
    requires n <= |batches|
    ensures var p := CombinePrefix(c, batches, n, key);
      && |c.unique| <= |p.combiner.unique|
      && |c.state.log| <= |p.combiner.state.log|
      && p.combiner.unique[..|c.unique|] == c.unique
      && |p.combiner.unique| == |c.unique| + p.total
      && p.combiner.state.log[..|c.state.log|] == c.state.log
      && p.total + (|p.combiner.state.log| - |c.state.log|) == InputSize(batches, n)
    decreases n
  {
    if n > 0 {
      CombinePrefixCounts(c, batches, n - 1, key);
      var p := CombinePrefix(c, batches, n - 1, key);
      var b := batches[n - 1];
      var st := p.combiner.state;
      CombineStepCounts(st, b, key);
      var r := DedupPrefix(st, b.path, b.entries, |b.entries|, key);
      assert (p.combiner.unique + r.kept)[..|c.unique|] == p.combiner.unique[..|c.unique|];
      assert r.state.log[..|c.state.log|] == st.log[..|c.state.log|];
    }
  }

  /** One file extends the log and accounts for each of its entries, kept or
      logged. */
  lemma CombineStepCounts(st: State, b: Batch, key: Entry -> string)
    ensures var r := DedupPrefix(st, b.path, b.entries, |b.entries|, key);
      && |st.log| <= |r.state.log|
      && r.state.log[..|st.log|] == st.log
      && |r.kept| + (|r.state.log| - |st.log|) == |b.entries|
  {
    DedupPrefixReference(st, b.path, b.entries, |b.entries|, key);
    FirstsRepeatsCount(st.seen, b.path, b.entries, |b.entries|, key);
  }

  /** Starting from a combiner whose hash set is the keys of its unique
      entries, all distinct, every call keeps it so: the combined output
      never holds two entries with the same key. */
  lemma {:induction false} CombinePrefixDistinct(c: Combiner, batches: seq<Batch>, n: nat, key: Entry -> string)
    requires n <= |batches|
    requires c.state.seen == KeysOf(c.unique, key) && KeysDistinct(c.unique, key)
    ensures var p := CombinePrefix(c, batches, n, key);
      && p.combiner.state.seen == KeysOf(p.combiner.unique, key)
      && KeysDistinct(p.combiner.unique, key)
    decreases n
  {
    if n > 0 {
      CombinePrefixDistinct(c, batches, n - 1, key);
      var p := CombinePrefix(c, batches, n - 1, key);
      CombineStepDistinct(p.combiner, batches[n - 1], key);
    }
  }

  /** One file of `combine_files` keeps the hash set equal to the keys of the
      unique entries, and those keys distinct. */
  lemma CombineStepDistinct(c: Combiner, b: Batch, key: Entry -> string)
    requires c.state.seen == KeysOf(c.unique, key) && KeysDistinct(c.unique, key)
    ensures var r := DedupPrefix(c.state, b.path, b.entries, |b.entries|, key);
      && r.state.seen == KeysOf(c.unique + r.kept, key)
      && KeysDistinct(c.unique + r.kept, key)
  {
    var st := c.state;
    DedupPrefixSeen(st, b.path, b.entries, |b.entries|, key);
    DedupPrefixKept(st, b.path, b.entries, |b.entries|, key);
    var r := DedupPrefix(st, b.path, b.entries, |b.entries|, key);
    var u := c.unique + r.kept;
    assert KeysOf(u, key) == KeysOf(c.unique, key) + KeysOf(r.kept, key);
    KeysDistinctAppend(c.unique, r.kept, st.seen, key);
  }

  /** The hash set grows by exactly the number of entries the files add. */
  lemma {:induction false} CombinePrefixGrowth(c: Combiner, batches: seq<Batch>, n: nat, key: Entry -> string)
    requires n <= |batches|
    ensures var p := CombinePrefix(c, batches, n, key);
      |p.combiner.state.seen| + |c.unique| == |c.state.seen| + |p.combiner.unique|
    decreases n
  {
    if n > 0 {
      CombinePrefixGrowth(c, batches, n - 1, key);
      var p := CombinePrefix(c, batches, n - 1, key);
      var b := batches[n - 1];
      DedupPrefixGrowth(p.combiner.state, b.path, b.entries, |b.entries|, key);
    }
  }

  /** Two lists with distinct keys, the first's keys all in `seen` and the
      second's all outside it, have distinct keys together. */
  lemma KeysDistinctAppend(u: seq<Entry>, v: seq<Entry>, seen: set<string>, key: Entry -> string)
    requires KeysDistinct(u, key) && KeysDistinct(v, key)
    requires KeysOf(u, key) <= seen
    requires forall e :: e in v ==> key(e) !in seen
    ensures KeysDistinct(u + v, key)
  {
    var w := u + v;
    forall a, b | 0 <= a < b < |w|
      ensures key(w[a]) != key(w[b])
    {
      if a < |u| <= b {
        assert key(w[a]) in KeysOf(u, key);
        assert w[b] in v;
      } else if |u| <= a {
        assert w[a] == v[a - |u|] && w[b] == v[b - |u|];
      }
    }
  }

  /** On a new combiner the output holds no two entries with the same key,
      one per key the hash set holds. */
  lemma CombineFilesUnique(batches: seq<Batch>, key: Entry -> string)
    ensures var (c, stats) := CombineBatches(Fresh, batches, key);
      && KeysDistinct(c.unique, key)
      && c.state.seen == KeysOf(c.unique, key)
      && |c.state.seen| == |c.unique|
      && stats.uniqueEntries == |c.unique|
  {
    assert KeysOf([], key) == {};
    CombinePrefixDistinct(Fresh, batches, |batches|, key);
    CombinePrefixGrowth(Fresh, batches, |batches|, key);
  }

  /** As written, `duplicates_removed` is minus the number of entries the
      combiner held before the call: zero on a new combiner whatever the
      input, and `total_original_entries` equals `unique_entries`. */
  lemma CombineFilesAsWritten(c: Combiner, batches: seq<Batch>, key: Entry -> string)
    ensures var (c2, stats) := CombineBatches(c, batches, key);
      && stats.duplicatesRemoved == -|c.unique|
      && stats.totalOriginalEntries == stats.uniqueEntries - |c.unique|
  {
    CombinePrefixCounts(c, batches, |batches|, key);
  }

  /** One file holding the same cleaned entry twice: one copy is kept and
      one is logged. */
  lemma RepeatInOneFile(e: Entry, path: string, key: Entry -> string)
    ensures var p := CombinePrefix(Fresh, [Batch(path, [e, e])], 1, key);
      |p.combiner.unique| == 1 && |p.combiner.state.log| == 1 && p.total == 1
  {
    var entries := [e, e];
    var r1 := DedupPrefix(Fresh.state, path, entries, 1, key);
    assert r1.state.seen == {key(e)};
  }

  /** A cleaned file holding the same entry twice, for any key function:
      the second copy is listed as a duplicate, yet a new combiner reports no
      duplicates removed. */
  lemma CombineBatchesMissesRepeat(e: Entry, path: string, key: Entry -> string)
    ensures var (c, stats) := CombineBatches(Fresh, [Batch(path, [e, e])], key);
      && |c.unique| == 1
      && TotalLocations(stats.duplicateIndices) == 1
      && stats.duplicatesRemoved == 0
  {
    RepeatInOneFile(e, path, key);
    var p := CombinePrefix(Fresh, [Batch(path, [e, e])], 1, key);
    GroupByKeyTotal(p.combiner.state.log);
  }

  /** The same for a raw file and the `hash_entry` key. */
  lemma CombineFilesMissesRepeat(x: RawEntry, path: string, hash: string -> string)
    ensures var (c, stats) := CombineFiles(Fresh, [FileInput(path, [x, x])], hash);
      && |c.unique| == 1
      && TotalLocations(stats.duplicateIndices) == 1
      && stats.duplicatesRemoved == 0
  {
    var files := [FileInput(path, [x, x])];
    var e := ProcessEntry(x);
    assert ProcessAll([x, x]) == [e, e];
    assert Prepare(files) == [Batch(path, [e, e])];
    CombineBatchesMissesRepeat(e, path, KeyBy(hash));
  }

  /** The intended statistics: `duplicates_removed` is the number of
      entries this call dropped, never negative, and on a new combiner it is
      the number of locations `duplicate_indices` lists. */
  lemma IntendedStatsCount(c: Combiner, batches: seq<Batch>, key: Entry -> string)
    ensures var stats := IntendedBatchStats(c, batches, key);
      var (c2, _) := CombineBatches(c, batches, key);
      && |c.state.log| <= |c2.state.log|
      && stats.duplicatesRemoved == |c2.state.log| - |c.state.log|
      && stats.duplicatesRemoved >= 0
      && (c == Fresh ==> stats.duplicatesRemoved == TotalLocations(stats.duplicateIndices))
  {
    CombinePrefixCounts(c, batches, |batches|, key);
    var p := CombinePrefix(c, batches, |batches|, key);
    GroupByKeyTotal(p.combiner.state.log);
  }

  /** The intended total is the number of entries in the input. */
  lemma {:induction false} InputSizeCounts(files: seq<FileInput>, n: nat)
    requires n <= |files|
    ensures InputSize(Prepare(files), n) == InputSizeRaw(files, n)
    decreases n
  {
    if n > 0 {
      InputSizeCounts(files, n - 1);
    }
  }

  /** The number of raw entries in the first `n` files. */
  function InputSizeRaw(files: seq<FileInput>, n: nat): nat
    requires n <= |files|
    decreases n
  {
    if n == 0 then 0 else InputSizeRaw(files, n - 1) + |files[n - 1].data|
  }
}
