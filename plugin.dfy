/** The message handler of the bot plugin: has_images, which decides whether
    a message is handled at all, and handle_images, which walks the segments
    of a message, classifies every image, and either bumps the count of a
    recorded file, drops a near duplicate, or records a new cat in the table
    and in the fingerprint store.  Downloads, the cat classifier, the hash
    network and file writes are outside the model: their answers for each
    image arrive as an ImageIO value. */
module Plugin {
  import opened Wrappers
  import opened Records
  import opened Similarity
  import NeuralHash
  import Deduplication

  /** The formats download_image accepts; anything else raises. */
  datatype ImageExt = Gif | Jpeg | Png | Bmp

  /** The extension text imghdr reports for each format. */
  function ExtName(e: ImageExt): (name: string)
    ensures |name| > 0 && '.' !in name
  {
    match e
    case Gif => "gif"
    case Jpeg => "jpeg"
    case Png => "png"
    case Bmp => "bmp"
  }

  /** What the outside world answers for one image segment. */
  datatype ImageIO = ImageIO(
    download: Option<ImageExt>,  // None: the download, the format sniffing or the decoding raised
    prob: Option<real>,          // the classifier's cat probability; None: it raised
    bits: Fingerprint,           // the fingerprint calc_bits computes
    saved: bool)                 // save_image returned normally

  /** The segment kinds the handler distinguishes. */
  datatype Segment =
    | Text(text: string)
    | Image(url: string, file: string, io: ImageIO)
    | Other

  /** One incoming message: its segments, the session id ("group_<group>_<user>"
      in a group, the user id in a private chat), the sender and the time. */
  datatype Event = Event(segments: seq<Segment>, sessionId: string, userId: string, time: int)

  /** Probabilities below this are not cats. */
  const CatThreshold: real := 0.6

  /** The command that asks for the probability report. */
  const ProbCommand: string := "/cat_prob"

  // ---------------------------------------------------------------------
  // has_images

  /** The matcher's rule: true as soon as one segment is an image. */
  method HasImages(segments: seq<Segment>) returns (found: bool)
    ensures found <==> exists i :: 0 <= i < |segments| && segments[i].Image?
  {
    for k := 0 to |segments|
      invariant forall i :: 0 <= i < k ==> !segments[i].Image?
    {
      if segments[k].Image? {
        return true;
      }
    }
    return false;
  }

  // ---------------------------------------------------------------------
  // String rules

  /** The characters str.isspace accepts, which str.strip removes. */
  predicate IsSpace(c: char) {
    var n := c as int;
    || n == 0x20 || 0x09 <= n <= 0x0d || 0x1c <= n <= 0x1f
    || n == 0x85 || n == 0xa0 || n == 0x1680 || 0x2000 <= n <= 0x200a
    || n == 0x2028 || n == 0x2029 || n == 0x202f || n == 0x205f || n == 0x3000
  }

  predicate AllSpace(s: string) {
    forall i :: 0 <= i < |s| ==> IsSpace(s[i])
  }

  /** The number of whitespace characters str.strip removes in front. */
  function LeadSpaces(s: string): (k: nat)
    ensures k <= |s|
    ensures forall i :: 0 <= i < k ==> IsSpace(s[i])
    ensures k < |s| ==> !IsSpace(s[k])
    decreases |s|
  {
    if |s| > 0 && IsSpace(s[0]) then
      var k := LeadSpaces(s[1..]);
      assert forall i :: 1 <= i < k + 1 ==> s[i] == s[1..][i - 1];
      k + 1
    else 0
  }

  /** The number it removes at the end. */
  function TrailSpaces(s: string): (k: nat)
    ensures k <= |s|
    ensures forall i :: |s| - k <= i < |s| ==> IsSpace(s[i])
    ensures k < |s| ==> !IsSpace(s[|s| - k - 1])
    decreases |s|
  {
    if |s| > 0 && IsSpace(s[|s| - 1]) then TrailSpaces(s[..|s| - 1]) + 1 else 0
  }

  /** str.strip(). */
  function Strip(s: string): string {
    var l := s[LeadSpaces(s)..];
    l[..|l| - TrailSpaces(l)]
  }

  /** The whitespace Strip removes in front. */
  function Leading(s: string): string {
    s[..LeadSpaces(s)]
  }

  /** The whitespace Strip removes at the end. */
  function Trailing(s: string): string {
    var l := s[LeadSpaces(s)..];
    l[|l| - TrailSpaces(l)..]
  }

  /** Strip keeps a middle part that neither starts nor ends with a space
      and drops only whitespace around it. */
  lemma StripMeaning(s: string)
    ensures s == Leading(s) + Strip(s) + Trailing(s)
    ensures AllSpace(Leading(s)) && AllSpace(Trailing(s))
    ensures var r := Strip(s); |r| > 0 ==> !IsSpace(r[0]) && !IsSpace(r[|r| - 1])
  {
    var a := LeadSpaces(s);
    var l := s[a..];
    var b := TrailSpaces(l);
    assert l == l[..|l| - b] + l[|l| - b..];
    assert s == s[..a] + l;
  }

  /** Whitespace in front of a text that does not start with a space is
      what Strip removes in front. */
  lemma {:induction false} LeadPadded(p: string, x: string)
    requires AllSpace(p)
    requires |x| > 0 ==> !IsSpace(x[0])
    ensures LeadSpaces(p + x) == |p|
    decreases |p|
  {
    if |p| == 0 {
      assert p + x == x;
    } else {
      assert (p + x)[1..] == p[1..] + x;
      LeadPadded(p[1..], x);
    }
  }

  /** Whitespace after a text that does not end with a space is what
      Strip removes at the end. */
  lemma {:induction false} TrailPadded(x: string, q: string)
    requires AllSpace(q)
    requires |x| > 0 ==> !IsSpace(x[|x| - 1])
    ensures TrailSpaces(x + q) == |q|
    decreases |q|
  {
    if |q| == 0 {
      assert x + q == x;
    } else {
      var n := |x + q|;
      assert (x + q)[n - 1] == q[|q| - 1];
      assert (x + q)[..n - 1] == x + q[..|q| - 1];
      TrailPadded(x, q[..|q| - 1]);
    }
  }

  /** Conversely, whitespace around such a middle part is exactly what
      Strip removes. */
  lemma StripPadded(p: string, m: string, q: string)
    requires AllSpace(p) && AllSpace(q)
    requires |m| > 0 ==> !IsSpace(m[0]) && !IsSpace(m[|m| - 1])
    ensures Strip(p + m + q) == m
  {
    var s := p + m + q;
    if |m| > 0 {
      assert s == p + (m + q);
      LeadPadded(p, m + q);
      assert s[|p|..] == m + q;
      TrailPadded(m, q);
    } else {
      assert s == (p + q) + [];
      LeadPadded(p + q, []);
    }
  }

  /** The /cat_prob test: re.match("^/cat_prob$", text.strip()).  After
      strip there is no trailing newline for `$` to skip, so the test is
      equality. */
  predicate IsProbCommand(text: string) {
    Strip(text) == ProbCommand
  }

  /** A segment asks for the report exactly when it is /cat_prob with only
      whitespace around it. */
  lemma ProbCommandMeaning(text: string, p: string, q: string)
    ensures IsProbCommand(text) ==>
              && text == Leading(text) + ProbCommand + Trailing(text)
              && AllSpace(Leading(text)) && AllSpace(Trailing(text))
    ensures AllSpace(p) && AllSpace(q) ==> IsProbCommand(p + ProbCommand + q)
  {
    StripMeaning(text);
    if AllSpace(p) && AllSpace(q) {
      StripPadded(p, ProbCommand, q);
    }
  }

  /** ".".join(parts) for a one-character separator. */
  function Join(sep: char, parts: seq<string>): string
    decreases |parts|
  {
    if |parts| == 0 then ""
    else if |parts| == 1 then parts[0]
    else parts[0] + [sep] + Join(sep, parts[1..])
  }

  /** The position of the first occurrence of c. */
  function FirstIndexOf(s: string, c: char): (r: Option<nat>)
    ensures r.Some? ==> r.value < |s| && s[r.value] == c && c !in s[..r.value]
    ensures r.None? ==> c !in s
    decreases |s|
  {
    if |s| == 0 then None
    else if s[0] == c then Some(0)
    else
      match FirstIndexOf(s[1..], c)
      case None => None
      case Some(i) => Some(i + 1)
  }

  /** The position of the last occurrence of c. */
  function LastIndexOf(s: string, c: char): (r: Option<nat>)
    ensures r.Some? ==> r.value < |s| && s[r.value] == c && c !in s[r.value + 1..]
    ensures r.None? ==> c !in s
    decreases |s|
  {
    if |s| == 0 then None
    else if s[|s| - 1] == c then Some(|s| - 1)
    else
      var r := LastIndexOf(s[..|s| - 1], c);
      assert r.Some? ==> s[r.value + 1..] == s[..|s| - 1][r.value + 1..] + [s[|s| - 1]];
      assert r.None? ==> s == s[..|s| - 1] + [s[|s| - 1]];
      r
  }

  /** str.split(sep) for a one-character separator: the pieces between the
      occurrences of sep, always at least one. */
  function Split(s: string, sep: char): (parts: seq<string>)
    ensures |parts| > 0
    ensures forall i :: 0 <= i < |parts| ==> sep !in parts[i]
    ensures Join(sep, parts) == s
    decreases |s|
  {
    match FirstIndexOf(s, sep)
    case None => [s]
    case Some(i) =>
      var rest := Split(s[i + 1..], sep);
      assert ([s[..i]] + rest)[1..] == rest;
      assert s == s[..i] + [sep] + s[i + 1..];
      [s[..i]] + rest
  }

  /** str.rsplit(sep, 1): the text before and after the last sep, or the
      whole text when there is none. */
  function RSplitOnce(s: string, sep: char): (parts: seq<string>)
    ensures 1 <= |parts| <= 2 && Join(sep, parts) == s
    ensures |parts| == 1 <==> sep !in s
    ensures |parts| == 2 ==> sep !in parts[1]
  {
    match LastIndexOf(s, sep)
    case None => [s]
    case Some(k) =>
      assert s == s[..k] + [sep] + s[k + 1..];
      [s[..k], s[k + 1..]]
  }

  /** ".".join(filename.rsplit(".", 1)[:-1] + [ext]). */
  function RewriteExtension(file: string, ext: string): string {
    var parts := RSplitOnce(file, '.');
    Join('.', parts[..|parts| - 1] + [ext])
  }

  /** The rewrite keeps everything before the last '.' and puts ext after
      it; a name without a '.' becomes ext alone. */
  lemma RewriteExtensionMeaning(file: string, ext: string)
    ensures LastIndexOf(file, '.').None? ==> RewriteExtension(file, ext) == ext
    ensures LastIndexOf(file, '.').Some? ==>
              var k := LastIndexOf(file, '.').value;
              RewriteExtension(file, ext) == file[..k] + "." + ext
  {
    match LastIndexOf(file, '.')
    case None =>
      assert RSplitOnce(file, '.') == [file];
      assert [file][..0] + [ext] == [ext];
    case Some(k) =>
      var parts := [file[..k], ext];
      assert RSplitOnce(file, '.') == [file[..k], file[k + 1..]];
      assert [file[..k], file[k + 1..]][..1] + [ext] == parts;
      assert parts[1..] == [ext];
      assert Join('.', parts) == file[..k] + ['.'] + ext;
  }

  /** In a + [c] + b with no c in b, the last c is the one after a. */
  lemma {:induction false} LastIndexOfAfter(a: string, c: char, b: string)
    requires c !in b
    ensures LastIndexOf(a + [c] + b, c) == Some(|a|)
    decreases |b|
  {
    var s := a + [c] + b;
    if |b| > 0 {
      assert s[|s| - 1] == b[|b| - 1];
      assert s[..|s| - 1] == a + [c] + b[..|b| - 1];
      LastIndexOfAfter(a, c, b[..|b| - 1]);
    }
  }

  /** The rewrite is idempotent: the extension the file name ends with is
      then ext itself, whatever it was before. */
  lemma RewriteExtensionTwice(file: string, ext: string)
    requires '.' !in ext
    ensures RewriteExtension(RewriteExtension(file, ext), ext) == RewriteExtension(file, ext)
  {
    RewriteExtensionMeaning(file, ext);
    var once := RewriteExtension(file, ext);
    RewriteExtensionMeaning(once, ext);
    match LastIndexOf(file, '.')
    case None =>
    case Some(k) =>
      assert once == file[..k] + ['.'] + ext;
      LastIndexOfAfter(file[..k], '.', ext);
      assert once[..k] == file[..k];
  }

  // ---------------------------------------------------------------------
  // One image

  /** Why the handler stops: it returns early on a failed download or
      prediction, and an exception ends it elsewhere. */
  datatype Abort =
    | DownloadFailed                             // download_image or PIL raised
    | PredictFailed                              // the classifier raised
    | EncodeFailed(cause: NeuralHash.CodecError) // bits2hex raised
    | NoGroupInSession                           // session_id.split("_")[1] raised IndexError
    | InsertRejected(violation: DbError)          // the INSERT broke a unique constraint
    | SaveFailed                                 // save_image raised after the INSERT

  datatype Verdict = NotCat | Recounted | Similar | NewCat

  /** The table and the fingerprint store the handler works on. */
  datatype State = State(table: Table, contents: seq<Fingerprint>)

  /** The state after one image, what it appended to probs, and how it
      ended. */
  datatype Step = Step(state: State, prob: Option<real>, status: Result<Verdict, Abort>)

  /** group_id: None in a private chat (session id == user id), otherwise
      the second "_"-separated field of the session id. */
  function GroupId(sessionId: string, userId: string): Result<Option<string>, Abort> {
    if sessionId == userId then Success(None)
    else
      var parts := Split(sessionId, '_');
      if |parts| < 2 then Failure(NoGroupInSession) else Success(Some(parts[1]))
  }

  /** In a group the group id is the text between the first '_' of the
      session id and the next one (or the end); a session id without '_'
      that differs from the user id raises. */
  lemma GroupIdMeaning(sessionId: string, userId: string)
    ensures sessionId == userId ==> GroupId(sessionId, userId) == Success(None)
    ensures sessionId != userId && '_' !in sessionId ==>
              GroupId(sessionId, userId) == Failure(NoGroupInSession)
    ensures sessionId != userId && '_' in sessionId ==>
              var i := FirstIndexOf(sessionId, '_').value;
              var g := GroupId(sessionId, userId);
              && g.Success? && g.value.Some?
              && var id := g.value.value;
                 && '_' !in id
                 && |id| <= |sessionId| - i - 1
                 && id == sessionId[i + 1..][..|id|]
                 && (i + 1 + |id| == |sessionId| || sessionId[i + 1 + |id|] == '_')
  {
    if sessionId != userId {
      var s := sessionId;
      match FirstIndexOf(s, '_')
      case None =>
      case Some(i) =>
        var tail := s[i + 1..];
        var rest := Split(tail, '_');
        assert Split(s, '_') == [s[..i]] + rest;
        var id := rest[0];
        match FirstIndexOf(tail, '_')
        case None =>
          assert rest == [tail];
        case Some(j) =>
          assert id == tail[..j];
          assert tail[j] == '_';
    }
  }

  /** The row handle_images inserts for a new image, keyword arguments
      evaluated in order: bits2hex first, then group_id. */
  function NewRecord(url: string, name: string, bits: Fingerprint, ev: Event): Result<Row, Abort> {
    match NeuralHash.BitsToHex(bits)
    case Failure(e) => Failure(EncodeFailed(e))
    case Success(hex) =>
      match GroupId(ev.sessionId, ev.userId)
      case Failure(why) => Failure(why)
      case Success(group) => Success(Row(0, url, name, Some(hex), group, ev.userId, ev.time, 1))
  }

  /** The body of the loop of handle_images for one image segment: a
      failed download or prediction returns, a probability below 0.6 goes
      on to the next segment, a cat goes on to CatStep. */
  function ImageStep(s: State, url: string, file: string, io: ImageIO, ev: Event): (r: Step)
    requires Uniform(s.contents, |io.bits|)
    ensures Uniform(r.state.contents, |io.bits|)
    ensures r.state.contents == s.contents ||
            (r.status == Success(NewCat) && r.state.contents == s.contents + [io.bits])
  {
    match io.download
    case None => Step(s, None, Failure(DownloadFailed))
    case Some(ext) =>
      match io.prob
      case None => Step(s, Some(-1.0), Failure(PredictFailed))
      case Some(p) =>
        if p < CatThreshold then Step(s, io.prob, Success(NotCat))
        else CatStep(s, url, RewriteExtension(file, ExtName(ext)), io, ev, MaxScore(io.bits, s.contents))
  }

  /** A cat filed under name: a recorded file is recounted, a near
      duplicate of a stored fingerprint (similarity is what has_similar
      returns for it) is dropped, anything else goes on to RecordStep. */
  function CatStep(s: State, url: string, name: string, io: ImageIO, ev: Event, similarity: real): (r: Step)
    ensures r.state.contents == s.contents ||
            (r.status == Success(NewCat) && r.state.contents == s.contents + [io.bits])
  {
    match FindByFilename(s.table, name)
    case Some(i) =>
      Step(s.(table := UpdateCount(s.table, name, s.table[i].count + 1)), io.prob, Success(Recounted))
    case None =>
      if similarity >= SimilarThreshold then Step(s, io.prob, Success(Similar))
      else RecordStep(s, url, name, io, ev)
  }

  /** A new cat: the INSERT, then save_image, then add_hash. */
  function RecordStep(s: State, url: string, name: string, io: ImageIO, ev: Event): (r: Step)
    ensures r.state.contents == s.contents ||
            (r.status == Success(NewCat) && r.state.contents == s.contents + [io.bits])
  {
    match NewRecord(url, name, io.bits, ev)
    case Failure(why) => Step(s, io.prob, Failure(why))
    case Success(row) =>
      match Insert(s.table, row)
      case Failure(e) => Step(s, io.prob, Failure(InsertRejected(e)))
      case Success(t) =>
        if io.saved then Step(State(t, s.contents + [io.bits]), io.prob, Success(NewCat))
        else Step(s.(table := t), io.prob, Failure(SaveFailed))
  }

  /** The file name the image is filed under. */
  function SavedName(file: string, io: ImageIO): string
    requires io.download.Some?
  {
    RewriteExtension(file, ExtName(io.download.value))
  }

  /** A failed download or prediction ends the step with nothing changed. */
  lemma EarlyReturnChangesNothing(s: State, url: string, file: string, io: ImageIO, ev: Event)
    requires Uniform(s.contents, |io.bits|)
    requires io.download.None? || io.prob.None?
    ensures var r := ImageStep(s, url, file, io, ev);
            && r.state == s
            && r.status == Failure(if io.download.None? then DownloadFailed else PredictFailed)
  {
  }

  /** Below 0.6 the image is skipped: no record change, no hash appended. */
  lemma NotCatChangesNothing(s: State, url: string, file: string, io: ImageIO, ev: Event)
    requires Uniform(s.contents, |io.bits|)
    requires io.download.Some? && io.prob.Some?
    ensures var r := ImageStep(s, url, file, io, ev);
            (io.prob.value < CatThreshold <==> r.status == Success(NotCat)) &&
            (r.status == Success(NotCat) ==> r.state == s && r.prob == io.prob)
  {
  }

  /** A cat whose file name is recorded has that row's count raised by
      exactly one; nothing else in the table or the store changes. */
  lemma RecordedFileIsRecounted(s: State, url: string, file: string, io: ImageIO, ev: Event)
    requires Uniform(s.contents, |io.bits|) && WellFormed(s.table)
    requires io.download.Some? && io.prob.Some? && io.prob.value >= CatThreshold
    requires FindByFilename(s.table, SavedName(file, io)).Some?
    ensures var r := ImageStep(s, url, file, io, ev);
            var i := FindByFilename(s.table, SavedName(file, io)).value;
            && r.status == Success(Recounted)
            && r.state.contents == s.contents
            && |r.state.table| == |s.table|
            && r.state.table[i] == s.table[i].(count := s.table[i].count + 1)
            && forall j :: 0 <= j < |s.table| && j != i ==> r.state.table[j] == s.table[j]
  {
  }

  /** A cat with a new file name that scores at least 0.9 against the store
      is only logged; one that scores below goes on to be recorded. */
  lemma NewFileByScore(s: State, url: string, file: string, io: ImageIO, ev: Event)
    requires Uniform(s.contents, |io.bits|)
    requires io.download.Some? && io.prob.Some? && io.prob.value >= CatThreshold
    requires FindByFilename(s.table, SavedName(file, io)).None?
    ensures var r := ImageStep(s, url, file, io, ev);
            && (MaxScore(io.bits, s.contents) >= SimilarThreshold ==> r == Step(s, io.prob, Success(Similar)))
            && (MaxScore(io.bits, s.contents) < SimilarThreshold ==>
                  r == RecordStep(s, url, SavedName(file, io), io, ev) && r.status != Success(Similar))
  {
  }

  /** Recording a new cat appends exactly one row, with count 1, the
      encoded fingerprint as its hash and the next key, and then appends
      the fingerprint to the store once the file is saved.  Only a
      malformed fingerprint or session id, or a url already in the table,
      stops the insert. */
  lemma RecordStepMeaning(s: State, url: string, name: string, io: ImageIO, ev: Event)
    requires FindByFilename(s.table, name).None?
    ensures var r := RecordStep(s, url, name, io, ev);
            var hex := NeuralHash.BitsToHex(io.bits);
            var group := GroupId(ev.sessionId, ev.userId);
            && r.prob == io.prob
            && (hex.Failure? ==> r == Step(s, io.prob, Failure(EncodeFailed(hex.error))))
            && (hex.Success? && group.Failure? ==> r == Step(s, io.prob, Failure(NoGroupInSession)))
            && (hex.Success? && group.Success? ==>
                  ((exists j :: 0 <= j < |s.table| && s.table[j].url == url) <==>
                    r == Step(s, io.prob, Failure(InsertRejected(UniqueViolation)))))
            && (r.status == Success(NewCat) || r.status == Failure(SaveFailed) ==>
                  && hex.Success? && group.Success?
                  && r.state.table == s.table +
                       [Row(NextId(s.table), url, name, Some(hex.value), group.value, ev.userId, ev.time, 1)])
            && (r.status.Success? <==> r.status == Success(NewCat))
            && (r.status == Success(NewCat) <==> r.state.contents == s.contents + [io.bits])
            && (r.status == Success(NewCat) ==> io.saved)
  {
    var hex := NeuralHash.BitsToHex(io.bits);
    var group := GroupId(ev.sessionId, ev.userId);
    if hex.Success? && group.Success? {
      var row := NewRecord(url, name, io.bits, ev).value;
      assert row.filename == name;
      if Insert(s.table, row).Failure? {
        var j :| 0 <= j < |s.table| && (s.table[j].filename == name || s.table[j].url == url);
        assert s.table[j].url == url;
      }
    }
  }

  /** After a step the table is well formed and the store mirrors it,
      unless the file could not be saved: then it lacks exactly the new
      fingerprint. */
  predicate KeepsMirror(r: Step, bits: Fingerprint) {
    && WellFormed(r.state.table)
    && (r.status != Failure(SaveFailed) ==> Deduplication.Mirrors(r.state.contents, r.state.table))
    && (r.status == Failure(SaveFailed) ==>
          && Deduplication.Mirrors(r.state.contents + [bits], r.state.table)
          && !Deduplication.Mirrors(r.state.contents, r.state.table))
  }

  /** The insert keeps the table well formed; the store mirrors the table
      afterwards exactly when the file was saved, and otherwise lacks just
      the new fingerprint. */
  lemma RecordStepMirrors(s: State, url: string, name: string, io: ImageIO, ev: Event)
    requires WellFormed(s.table) && Deduplication.Mirrors(s.contents, s.table)
    ensures KeepsMirror(RecordStep(s, url, name, io, ev), io.bits)
  {
    match NewRecord(url, name, io.bits, ev)
    case Failure(_) =>
    case Success(row) =>
      match Insert(s.table, row)
      case Failure(_) =>
      case Success(t) =>
        var hex := NeuralHash.BitsToHex(io.bits);
        assert hex.Success? && row.nhash == Some(hex.value);
        NeuralHash.RoundTripBits(io.bits);
        Deduplication.MirrorsInsert(s.contents, s.table, row, io.bits);
        assert |s.contents + [io.bits]| != |s.contents|;
  }

  lemma CatStepMirrors(s: State, url: string, name: string, io: ImageIO, ev: Event, similarity: real)
    requires WellFormed(s.table) && Deduplication.Mirrors(s.contents, s.table)
    ensures KeepsMirror(CatStep(s, url, name, io, ev, similarity), io.bits)
  {
    match FindByFilename(s.table, name)
    case Some(i) =>
      RecountMirrors(s, name, i, io);
    case None =>
      RecordStepMirrors(s, url, name, io, ev);
  }

  lemma RecountMirrors(s: State, name: string, i: nat, io: ImageIO)
    requires WellFormed(s.table) && Deduplication.Mirrors(s.contents, s.table)
    requires i < |s.table|
    ensures KeepsMirror(Step(s.(table := UpdateCount(s.table, name, s.table[i].count + 1)), io.prob, Success(Recounted)), io.bits)
  {
    Deduplication.MirrorsUpdate(s.contents, s.table, name, s.table[i].count + 1);
  }

  /** Every step keeps the table well formed, and the store mirrors the
      table afterwards as before, except when the file could not be saved:
      then exactly the new fingerprint is missing from the store. */
  lemma ImageStepMirrors(s: State, url: string, file: string, io: ImageIO, ev: Event)
    requires Uniform(s.contents, |io.bits|)
    requires WellFormed(s.table) && Deduplication.Mirrors(s.contents, s.table)
    ensures KeepsMirror(ImageStep(s, url, file, io, ev), io.bits)
  {
    if io.download.Some? && io.prob.Some? && io.prob.value >= CatThreshold {
      CatStepMirrors(s, url, SavedName(file, io), io, ev, MaxScore(io.bits, s.contents));
    }
  }

  // ---------------------------------------------------------------------
  // The whole message

  /** Every image segment carries a fingerprint of width w. */
  predicate ImagesOfWidth(segs: seq<Segment>, w: nat) {
    forall i :: 0 <= i < |segs| && segs[i].Image? ==> |segs[i].io.bits| == w
  }

  /** The state after the loop, the probs list, the report sent (when the
      loop ran to the end with /cat_prob seen) and why it stopped early. */
  datatype Outcome = Outcome(state: State, probs: seq<real>, report: Option<seq<real>>, stopped: Option<Abort>)

  /** The loop of handle_images from a given segment on, with the probs
      collected and the output_prob flag set so far. */
  function HandleFrom(segs: seq<Segment>, ev: Event, s: State, probs: seq<real>, outputProb: bool, w: nat): (r: Outcome)
    requires Uniform(s.contents, w) && ImagesOfWidth(segs, w)
    decreases |segs|
  {
    if |segs| == 0 then Outcome(s, probs, if outputProb then Some(probs) else None, None)
    else
      assert ImagesOfWidth(segs[1..], w) by {
        forall i | 0 <= i < |segs| - 1 && segs[1..][i].Image? ensures |segs[1..][i].io.bits| == w {
          assert segs[1..][i] == segs[i + 1];
        }
      }
      match segs[0]
      case Other => HandleFrom(segs[1..], ev, s, probs, outputProb, w)
      case Text(text) => HandleFrom(segs[1..], ev, s, probs, outputProb || IsProbCommand(text), w)
      case Image(url, file, io) =>
        var step := ImageStep(s, url, file, io, ev);
        var probs' := probs + (if step.prob.Some? then [step.prob.value] else []);
        if step.status.Failure? then Outcome(step.state, probs', None, Some(step.status.error))
        else HandleFrom(segs[1..], ev, step.state, probs', outputProb, w)
  }

  /** handle_images on one message. */
  function Handle(ev: Event, s: State, w: nat): Outcome
    requires Uniform(s.contents, w) && ImagesOfWidth(ev.segments, w)
  {
    HandleFrom(ev.segments, ev, s, [], false, w)
  }

  /** Some segment is the /cat_prob command. */
  predicate AsksForReport(segs: seq<Segment>) {
    exists i :: 0 <= i < |segs| && segs[i].Text? && IsProbCommand(segs[i].text)
  }

  /** The probability each image contributes to probs: the prediction, or
      -1 where it failed. */
  function ImageProbs(segs: seq<Segment>): seq<real>
    decreases |segs|
  {
    if |segs| == 0 then []
    else
      (if segs[0].Image? then [ProbOf(segs[0].io)] else []) + ImageProbs(segs[1..])
  }

  lemma AsksForReportCons(segs: seq<Segment>)
    requires |segs| > 0
    ensures AsksForReport(segs) <==>
            (segs[0].Text? && IsProbCommand(segs[0].text)) || AsksForReport(segs[1..])
  {
    if AsksForReport(segs[1..]) {
      var i :| 0 <= i < |segs| - 1 && segs[1..][i].Text? && IsProbCommand(segs[1..][i].text);
      assert segs[i + 1] == segs[1..][i];
    }
    if AsksForReport(segs) && !(segs[0].Text? && IsProbCommand(segs[0].text)) {
      var i :| 0 <= i < |segs| && segs[i].Text? && IsProbCommand(segs[i].text);
      assert segs[1..][i - 1] == segs[i];
    }
  }

  /** A step that completes had a download and a prediction, and put the
      prediction on probs. */
  lemma CompletedStepProb(s: State, url: string, file: string, io: ImageIO, ev: Event)
    requires Uniform(s.contents, |io.bits|)
    ensures var r := ImageStep(s, url, file, io, ev);
            r.status.Success? ==> io.download.Some? && io.prob.Some? && r.prob == io.prob
  {
  }

  /** The report is sent exactly when the loop ran to the end and some
      segment was /cat_prob; it is the probs list. */
  lemma {:induction false} ReportIffAsked(segs: seq<Segment>, ev: Event, s: State, probs: seq<real>, outputProb: bool, w: nat)
    requires Uniform(s.contents, w) && ImagesOfWidth(segs, w)
    ensures var r := HandleFrom(segs, ev, s, probs, outputProb, w);
            && (r.report.Some? <==> r.stopped.None? && (outputProb || AsksForReport(segs)))
            && (r.report.Some? ==> r.report.value == r.probs)
    decreases |segs|
  {
    if |segs| > 0 {
      AsksForReportCons(segs);
      assert ImagesOfWidth(segs[1..], w) by {
        forall i | 0 <= i < |segs| - 1 && segs[1..][i].Image? ensures |segs[1..][i].io.bits| == w {
          assert segs[1..][i] == segs[i + 1];
        }
      }
      match segs[0]
      case Other =>
        ReportIffAsked(segs[1..], ev, s, probs, outputProb, w);
      case Text(text) =>
        ReportIffAsked(segs[1..], ev, s, probs, outputProb || IsProbCommand(text), w);
      case Image(url, file, io) =>
        var step := ImageStep(s, url, file, io, ev);
        var probs' := probs + (if step.prob.Some? then [step.prob.value] else []);
        if step.status.Success? {
          ReportIffAsked(segs[1..], ev, step.state, probs', outputProb, w);
        }
    }
  }

  /** What an image contributes to probs: its prediction, or -1 where the
      prediction raised. */
  function ProbOf(io: ImageIO): real {
    match io.prob
    case Some(v) => v
    case None => -1.0
  }

  /** A message handled to the end lists one probability per image, in
      order. */
  lemma {:induction false} ProbsInOrder(segs: seq<Segment>, ev: Event, s: State, probs: seq<real>, outputProb: bool, w: nat)
    requires Uniform(s.contents, w) && ImagesOfWidth(segs, w)
    ensures var r := HandleFrom(segs, ev, s, probs, outputProb, w);
            r.stopped.None? ==> r.probs == probs + ImageProbs(segs)
    decreases |segs|, 1
  {
    if |segs| > 0 {
      if segs[0].Image? {
        ProbsInOrderImage(segs, ev, s, probs, outputProb, w);
      } else {
        assert ImagesOfWidth(segs[1..], w) by {
          forall i | 0 <= i < |segs| - 1 && segs[1..][i].Image? ensures |segs[1..][i].io.bits| == w {
            assert segs[1..][i] == segs[i + 1];
          }
        }
        var flag := if segs[0].Text? then outputProb || IsProbCommand(segs[0].text) else outputProb;
        ProbsInOrder(segs[1..], ev, s, probs, flag, w);
        assert ImageProbs(segs) == ImageProbs(segs[1..]);
      }
    }
  }

  lemma {:induction false} ProbsInOrderImage(segs: seq<Segment>, ev: Event, s: State, probs: seq<real>, outputProb: bool, w: nat)
    requires Uniform(s.contents, w) && ImagesOfWidth(segs, w)
    requires |segs| > 0 && segs[0].Image?
    ensures var r := HandleFrom(segs, ev, s, probs, outputProb, w);
            r.stopped.None? ==> r.probs == probs + ImageProbs(segs)
    decreases |segs|, 0
  {
    var io := segs[0].io;
    var step := ImageStep(s, segs[0].url, segs[0].file, io, ev);
    if step.status.Success? {
      assert ImagesOfWidth(segs[1..], w) by {
        forall i | 0 <= i < |segs| - 1 && segs[1..][i].Image? ensures |segs[1..][i].io.bits| == w {
          assert segs[1..][i] == segs[i + 1];
        }
      }
      CompletedStepProb(s, segs[0].url, segs[0].file, io, ev);
      var probs' := probs + [ProbOf(io)];
      ProbsInOrder(segs[1..], ev, step.state, probs', outputProb, w);
      assert ImageProbs(segs) == [ProbOf(io)] + ImageProbs(segs[1..]);
      assert probs + ImageProbs(segs) == probs' + ImageProbs(segs[1..]);
    }
  }

  /** Once the handler stops, later segments are never looked at. */
  lemma {:induction false} StopIgnoresRest(segs: seq<Segment>, more: seq<Segment>, ev: Event, s: State, probs: seq<real>, outputProb: bool, w: nat)
    requires Uniform(s.contents, w) && ImagesOfWidth(segs + more, w)
    requires ImagesOfWidth(segs, w)
    requires HandleFrom(segs, ev, s, probs, outputProb, w).stopped.Some?
    ensures HandleFrom(segs + more, ev, s, probs, outputProb, w) == HandleFrom(segs, ev, s, probs, outputProb, w)
    decreases |segs|
  {
    var all := segs + more;
    assert all[0] == segs[0];
    assert all[1..] == segs[1..] + more;
    assert ImagesOfWidth(segs[1..], w) by {
      forall i | 0 <= i < |segs| - 1 && segs[1..][i].Image? ensures |segs[1..][i].io.bits| == w {
        assert segs[1..][i] == segs[i + 1];
      }
    }
    assert ImagesOfWidth(all[1..], w) by {
      forall i | 0 <= i < |all| - 1 && all[1..][i].Image? ensures |all[1..][i].io.bits| == w {
        assert all[1..][i] == all[i + 1];
      }
    }
    match segs[0]
    case Other =>
      StopIgnoresRest(segs[1..], more, ev, s, probs, outputProb, w);
    case Text(text) =>
      StopIgnoresRest(segs[1..], more, ev, s, probs, outputProb || IsProbCommand(text), w);
    case Image(url, file, io) =>
      var step := ImageStep(s, url, file, io, ev);
      var probs' := probs + (if step.prob.Some? then [step.prob.value] else []);
      if step.status.Success? {
        StopIgnoresRest(segs[1..], more, ev, step.state, probs', outputProb, w);
      }
  }

  /** Over a whole message the table stays well formed and the store keeps
      mirroring it, unless a file could not be saved; the store only grows. */
  lemma {:induction false} HandleMirrors(segs: seq<Segment>, ev: Event, s: State, probs: seq<real>, outputProb: bool, w: nat)
    requires Uniform(s.contents, w) && ImagesOfWidth(segs, w)
    requires WellFormed(s.table) && Deduplication.Mirrors(s.contents, s.table)
    ensures var r := HandleFrom(segs, ev, s, probs, outputProb, w);
            && WellFormed(r.state.table)
            && (r.stopped != Some(SaveFailed) ==> Deduplication.Mirrors(r.state.contents, r.state.table))
            && |s.contents| <= |r.state.contents| && r.state.contents[..|s.contents|] == s.contents
    decreases |segs|, 1
  {
    if |segs| > 0 {
      if segs[0].Image? {
        HandleMirrorsImage(segs, ev, s, probs, outputProb, w);
      } else {
        assert ImagesOfWidth(segs[1..], w) by {
          forall i | 0 <= i < |segs| - 1 && segs[1..][i].Image? ensures |segs[1..][i].io.bits| == w {
            assert segs[1..][i] == segs[i + 1];
          }
        }
        var flag := if segs[0].Text? then outputProb || IsProbCommand(segs[0].text) else outputProb;
        HandleMirrors(segs[1..], ev, s, probs, flag, w);
      }
    }
  }

  lemma {:induction false} HandleMirrorsImage(segs: seq<Segment>, ev: Event, s: State, probs: seq<real>, outputProb: bool, w: nat)
    requires Uniform(s.contents, w) && ImagesOfWidth(segs, w)
    requires WellFormed(s.table) && Deduplication.Mirrors(s.contents, s.table)
    requires |segs| > 0 && segs[0].Image?
    ensures var r := HandleFrom(segs, ev, s, probs, outputProb, w);
            && WellFormed(r.state.table)
            && (r.stopped != Some(SaveFailed) ==> Deduplication.Mirrors(r.state.contents, r.state.table))
            && |s.contents| <= |r.state.contents| && r.state.contents[..|s.contents|] == s.contents
    decreases |segs|, 0
  {
    var io := segs[0].io;
    var step := ImageStep(s, segs[0].url, segs[0].file, io, ev);
    ImageStepMirrors(s, segs[0].url, segs[0].file, io, ev);
    assert step.state.contents[..|s.contents|] == s.contents;
    if step.status.Success? {
      assert ImagesOfWidth(segs[1..], w) by {
        forall i | 0 <= i < |segs| - 1 && segs[1..][i].Image? ensures |segs[1..][i].io.bits| == w {
          assert segs[1..][i] == segs[i + 1];
        }
      }
      var probs' := probs + (if step.prob.Some? then [step.prob.value] else []);
      HandleMirrors(segs[1..], ev, step.state, probs', outputProb, w);
      var r := HandleFrom(segs[1..], ev, step.state, probs', outputProb, w);
      assert r.state.contents[..|s.contents|] == r.state.contents[..|step.state.contents|][..|s.contents|];
    }
  }

  // ---------------------------------------------------------------------
  // The handler over the live store

  /** One image segment against the live store: has_similar scans it and
      add_hash extends it. */
  method HandleImage(store: Deduplication.HashStore, table: Table, url: string, file: string, io: ImageIO, ev: Event)
    returns (table': Table, prob: Option<real>, status: Result<Verdict, Abort>)
    requires store.Valid() && Uniform(store.Contents(), |io.bits|)
    modifies store
    ensures store.Valid()
    ensures var r := ImageStep(State(table, old(store.Contents())), url, file, io, ev);
            && table' == r.state.table && store.Contents() == r.state.contents
            && prob == r.prob && status == r.status
  {
    table' := table;
    if io.download.None? {
      return table, None, Failure(DownloadFailed);
    }
    var name := RewriteExtension(file, ExtName(io.download.value));
    if io.prob.None? {
      return table, Some(-1.0), Failure(PredictFailed);
    }
    var p := io.prob.value;
    prob := Some(p);
    if p < CatThreshold {
      return table, prob, Success(NotCat);
    }
    var record := FindByFilename(table, name);
    if record.Some? {
      table' := UpdateCount(table, name, table[record.value].count + 1);
      return table', prob, Success(Recounted);
    }
    var similarity := store.HasSimilar(io.bits);
    if similarity >= SimilarThreshold {
      return table, prob, Success(Similar);
    }
    var row := NewRecord(url, name, io.bits, ev);
    if row.Failure? {
      return table, prob, Failure(row.error);
    }
    var inserted := Insert(table, row.value);
    if inserted.Failure? {
      return table, prob, Failure(InsertRejected(inserted.error));
    }
    table' := inserted.value;
    if !io.saved {
      return table', prob, Failure(SaveFailed);
    }
    var ok := store.AddHash(io.bits);
    status := Success(NewCat);
  }

  /** handle_images: the loop over the segments of one message, returning
      the report it sends, if any, and why it stopped early, if it did. */
  method HandleImages(store: Deduplication.HashStore, table: Table, ev: Event, ghost w: nat)
    returns (table': Table, report: Option<seq<real>>, stopped: Option<Abort>)
    requires store.Valid() && Uniform(store.Contents(), w) && ImagesOfWidth(ev.segments, w)
    modifies store
    ensures store.Valid()
    ensures var r := Handle(ev, State(table, old(store.Contents())), w);
            && table' == r.state.table && store.Contents() == r.state.contents
            && report == r.report && stopped == r.stopped
  {
    var segs := ev.segments;
    ghost var whole := Handle(ev, State(table, store.Contents()), w);
    var probs: seq<real> := [];
    var outputProb := false;
    table' := table;
    var k := 0;
    while k < |segs|
      invariant 0 <= k <= |segs|
      invariant store.Valid() && Uniform(store.Contents(), w)
      invariant ImagesOfWidth(segs[k..], w)
      invariant HandleFrom(segs[k..], ev, State(table', store.Contents()), probs, outputProb, w) == whole
    {
      var rest := segs[k..];
      assert rest[1..] == segs[k + 1..];
      assert ImagesOfWidth(segs[k + 1..], w) by {
        forall i | 0 <= i < |rest| - 1 && rest[1..][i].Image? ensures |rest[1..][i].io.bits| == w {
          assert rest[1..][i] == rest[i + 1];
        }
      }
      match segs[k] {
        case Other =>
        case Text(text) =>
          if IsProbCommand(text) {
            outputProb := true;
          }
        case Image(url, file, io) =>
          var prob, status;
          table', prob, status := HandleImage(store, table', url, file, io, ev);
          if prob.Some? {
            probs := probs + [prob.value];
          }
          if status.Failure? {
            return table', None, Some(status.error);
          }
      }
      k := k + 1;
    }
    report := if outputProb then Some(probs) else None;
    stopped := None;
  }
}
