/**
  The earlier batch processor of email_k1.py, which builds matching keys from file names
  instead of from the PDF text: "23P_3189 GOTA FOREST PLACE LLC 1 GOTA LLC.pdf" is a Roth ID,
  the issuing entity's words, a number, and the receiving entity's words.
*/
module EmailK1 {
  import opened Wrappers
  import opened Text
  import opened Discovery
  import opened MatchingKeys

  /** This processor's translation table deletes only these; apostrophes survive. */
  const LEGACY_STOP_CHARS: set<char> := {' ', '.', ','}

  function LegacyNormalise(s: string): string {
    RemoveChars(Lower(s), LEGACY_STOP_CHARS)
  }

  /** A legacy key holds no space, period, comma or capital, and normalising it again changes
      nothing. */
  lemma LegacyNormaliseIsClean(s: string)
    ensures forall i :: 0 <= i < |LegacyNormalise(s)| ==> LegacyNormalise(s)[i] !in LEGACY_STOP_CHARS && !IsUpper(LegacyNormalise(s)[i])
    ensures LegacyNormalise(LegacyNormalise(s)) == LegacyNormalise(s)
  {
    var r := LegacyNormalise(s);
    RemoveCharsRemoves(Lower(s), LEGACY_STOP_CHARS);
    RemoveCharsKeepsLower(Lower(s), LEGACY_STOP_CHARS);
    LowerOfLower(r);
    RemoveCharsAbsent(r, LEGACY_STOP_CHARS);
  }

  // ---------------------------------------------------------------- gathering

  predicate IsPdf(file: string) {
    EndsWith(Lower(file), PDF_SUFFIX)
  }

  function FolderPaths(folder: string, files: seq<string>): seq<string> {
    if files == [] then []
    else
      var last := files[|files| - 1];
      FolderPaths(folder, files[..|files| - 1]) + (if IsPdf(last) then [FilePath(folder, last)] else [])
  }

  /** The paths `_gather_files` appends: every PDF of every directory, in listing order. */
  function LegacyPaths(listing: seq<DirEntry>): seq<string> {
    if listing == [] then []
    else
      var entry := listing[|listing| - 1];
      LegacyPaths(listing[..|listing| - 1]) + (if entry.isDirectory then FolderPaths(entry.name, entry.files) else [])
  }

  /** One more file of a folder: its path follows when it is a PDF. */
  lemma FolderPathsStep(folder: string, files: seq<string>, f: nat)
    requires f < |files|
    ensures FolderPaths(folder, files[..f + 1])
         == FolderPaths(folder, files[..f]) + (if IsPdf(files[f]) then [FilePath(folder, files[f])] else [])
  {
    assert files[..f + 1][..f] == files[..f];
  }

  /** One more entry of the listing: a directory's PDF paths follow. */
  lemma LegacyPathsStep(listing: seq<DirEntry>, d: nat)
    requires d < |listing|
    ensures LegacyPaths(listing[..d + 1])
         == LegacyPaths(listing[..d]) + (if listing[d].isDirectory then FolderPaths(listing[d].name, listing[d].files) else [])
  {
    assert listing[..d + 1][..d] == listing[..d];
  }

  /** `p` is the path of the PDF at index `k` of a folder's files. */
  predicate PdfAt(folder: string, files: seq<string>, k: int, p: string) {
    0 <= k < |files| && IsPdf(files[k]) && p == FilePath(folder, files[k])
  }

  /** `p` is the path of the PDF at index `k` of directory entry `d` of the listing. */
  predicate ListedPdfAt(listing: seq<DirEntry>, d: int, k: int, p: string) {
    0 <= d < |listing| && listing[d].isDirectory && PdfAt(listing[d].name, listing[d].files, k, p)
  }

  lemma {:induction false} FolderPathsMembership(folder: string, files: seq<string>, p: string)
    ensures p in FolderPaths(folder, files) <==> exists k :: PdfAt(folder, files, k, p)
  {
    if files != [] {
      var init := files[..|files| - 1];
      var last := files[|files| - 1];
      assert FolderPaths(folder, files) == FolderPaths(folder, init) + (if IsPdf(last) then [FilePath(folder, last)] else []);
      FolderPathsMembership(folder, init, p);
      PdfAtSnoc(folder, files, init, p);
    }
  }

  /** A file of a folder is one of its first files or its last. */
  lemma PdfAtSnoc(folder: string, files: seq<string>, init: seq<string>, p: string)
    requires files != [] && init == files[..|files| - 1]
    ensures (exists k :: PdfAt(folder, files, k, p))
        <==> (exists k :: PdfAt(folder, init, k, p)) || PdfAt(folder, files, |files| - 1, p)
  {
    if exists k :: PdfAt(folder, files, k, p) {
      var k :| PdfAt(folder, files, k, p);
      if k < |init| {
        assert init[k] == files[k];
        assert PdfAt(folder, init, k, p);
      }
    }
    if exists k :: PdfAt(folder, init, k, p) {
      var k :| PdfAt(folder, init, k, p);
      assert init[k] == files[k];
      assert PdfAt(folder, files, k, p);
    }
  }

  /** A path is gathered exactly when it names a PDF of a directory of the listing; a file
      mentioning "managers" is not excluded here, and nothing is deduplicated. */
  lemma {:induction false} LegacyPathsMembership(listing: seq<DirEntry>, p: string)
    ensures p in LegacyPaths(listing) <==> exists d, k :: ListedPdfAt(listing, d, k, p)
  {
    if listing != [] {
      var init := listing[..|listing| - 1];
      var entry := listing[|listing| - 1];
      LegacyPathsMembership(init, p);
      FolderPathsMembership(entry.name, entry.files, p);
      ListedPdfAtSnoc(listing, init, entry, p);
    }
  }

  /** An entry of the listing is one of its first entries or its last. */
  lemma ListedPdfAtSnoc(listing: seq<DirEntry>, init: seq<DirEntry>, last: DirEntry, p: string)
    requires listing != [] && init == listing[..|listing| - 1] && last == listing[|listing| - 1]
    ensures (exists d, k :: ListedPdfAt(listing, d, k, p))
        <==> (exists d, k :: ListedPdfAt(init, d, k, p))
             || (last.isDirectory && exists k :: PdfAt(last.name, last.files, k, p))
  {
    if exists d, k :: ListedPdfAt(listing, d, k, p) {
      var d, k :| ListedPdfAt(listing, d, k, p);
      if d < |init| {
        assert init[d] == listing[d];
        assert ListedPdfAt(init, d, k, p);
      }
    }
    if exists d, k :: ListedPdfAt(init, d, k, p) {
      var d, k :| ListedPdfAt(init, d, k, p);
      assert listing[d] == init[d];
      assert ListedPdfAt(listing, d, k, p);
    }
    if last.isDirectory && exists k :: PdfAt(last.name, last.files, k, p) {
      var k :| PdfAt(last.name, last.files, k, p);
      assert ListedPdfAt(listing, |listing| - 1, k, p);
    }
  }

  /** Every path the newer scan appends is one this scan gathers too; the converse fails for
      files whose name mentions "managers". */
  lemma LegacyGathersMore(existing: seq<K1Record>, listing: seq<DirEntry>, d: int, k: int)
    requires 0 <= d < |listing| && listing[d].isDirectory && 0 <= k < |listing[d].files|
    ensures forall r :: r in NewRecords(existing, listing) ==> r.path in LegacyPaths(listing)
    ensures IsPdf(listing[d].files[k]) ==> FilePath(listing[d].name, listing[d].files[k]) in LegacyPaths(listing)
  {
    forall r | r in NewRecords(existing, listing) ensures r.path in LegacyPaths(listing) {
      NewRecordsMembership(existing, listing, r);
      var d', k' :| Candidate(listing, d', k') && r == NewRecord(listing[d'].name, listing[d'].files[k']);
      LegacyPathsMembership(listing, r.path);
      assert IsPdf(listing[d'].files[k']);
      assert r == NewRecord(listing[d'].name, listing[d'].files[k']);
      assert r.path == FilePath(listing[d'].name, listing[d'].files[k']);
      assert PdfAt(listing[d'].name, listing[d'].files, k', r.path);
      assert ListedPdfAt(listing, d', k', r.path);
    }
    LegacyPathsMembership(listing, FilePath(listing[d].name, listing[d].files[k]));
    if IsPdf(listing[d].files[k]) {
      assert ListedPdfAt(listing, d, k, FilePath(listing[d].name, listing[d].files[k]));
    }
  }

  // ---------------------------------------------------------------- file names

  predicate HasNumberToken(tokens: seq<string>) {
    exists i :: 0 <= i < |tokens| && IsDigits(tokens[i])
  }

  /** The index the `for ... break` loop leaves in `number_index`. */
  function FirstNumberToken(tokens: seq<string>): (n: nat)
    requires HasNumberToken(tokens)
    ensures n < |tokens| && IsDigits(tokens[n])
    ensures forall j :: 0 <= j < n ==> !IsDigits(tokens[j])
  {
    if IsDigits(tokens[0]) then 0
    else
      assert HasNumberToken(tokens[1..]) by {
        var i :| 0 <= i < |tokens| && IsDigits(tokens[i]);
        assert tokens[1..][i - 1] == tokens[i];
      }
      1 + FirstNumberToken(tokens[1..])
  }

  /** The first number token is the only index with its two properties. */
  lemma FirstNumberTokenUnique(tokens: seq<string>, n: nat)
    requires n < |tokens| && IsDigits(tokens[n]) && forall j :: 0 <= j < n ==> !IsDigits(tokens[j])
    ensures HasNumberToken(tokens) && FirstNumberToken(tokens) == n
  {
  }

  /** The tokens after the Roth ID: the file name split on single spaces, the first dropped. */
  function EntityTokens(filename: string): seq<string> {
    Split(filename, ' ')[1..]
  }

  /** Python's `s[:-4]`: all but the last four characters; nothing when there are fewer. */
  function DropExtension(s: string): (r: string)
    ensures |s| >= 4 ==> s == r + s[|s| - 4..]
    ensures |s| < 4 ==> r == []
  {
    if |s| >= 4 then s[..|s| - 4] else []
  }

  datatype ParsedName = ParsedName(issuing: string, receiving: string)

  predicate ParsableName(filename: string) {
    HasNumberToken(EntityTokens(filename))
  }

  /** Issuing entity: the tokens before the number, run together; receiving entity: the tokens
      after it, run together, less the four characters of the extension. */
  function ParseFilename(filename: string): ParsedName
    requires ParsableName(filename)
  {
    var tokens := EntityTokens(filename);
    var n := FirstNumberToken(tokens);
    ParsedName(Concat(tokens[..n]), DropExtension(Concat(tokens[n + 1..])))
  }

  /** The Roth ID never reaches the entities: replacing it changes nothing. */
  lemma RothIdIgnored(id1: string, id2: string, rest: string)
    requires ' ' !in id1 && ' ' !in id2
    ensures EntityTokens(id1 + " " + rest) == EntityTokens(id2 + " " + rest)
  {
    assert id1 + " " + rest == id1 + [' '] + rest;
    assert id2 + " " + rest == id2 + [' '] + rest;
    SplitAtFirst(id1, ' ', rest);
    SplitAtFirst(id2, ' ', rest);
  }

  /** A file name whose tokens after the Roth ID are the issuing entity's words, a number and
      the receiving entity's words parses into the two runs of words run together (the
      receiving run less its last four characters), provided no issuing word is a number. */
  lemma ParseFilenameLayout(filename: string, issuingWords: seq<string>, number: string, receivingWords: seq<string>)
    requires EntityTokens(filename) == issuingWords + [number] + receivingWords
    requires IsDigits(number)
    requires forall k :: 0 <= k < |issuingWords| ==> !IsDigits(issuingWords[k])
    ensures ParsableName(filename)
    ensures ParseFilename(filename) == ParsedName(Concat(issuingWords), DropExtension(Concat(receivingWords)))
  {
    var tokens := EntityTokens(filename);
    var n := |issuingWords|;
    assert forall j :: 0 <= j < n ==> !IsDigits(tokens[j]) by {
      forall j | 0 <= j < n ensures !IsDigits(tokens[j]) {
        assert tokens[j] == issuingWords[j];
      }
    }
    assert tokens[n] == number;
    FirstNumberTokenUnique(tokens, n);
    assert tokens[..n] == issuingWords;
    assert tokens[n + 1..] == receivingWords;
  }

  /** Joining space-free words with single spaces and splitting again drops only the first. */
  lemma EntityTokensOfJoin(parts: seq<string>)
    requires |parts| >= 1 && forall k :: 0 <= k < |parts| ==> ' ' !in parts[k]
    ensures EntityTokens(Join(parts, ' ')) == parts[1..]
  {
    SplitJoin(parts, ' ');
  }

  /** The module's example: the file name "23P_3189 GOTA FOREST PLACE LLC 1 GOTA LLC.pdf", given
      by its space-separated words, has issuing entity "GOTAFORESTPLACELLC" and receiving
      entity "GOTALLC". */
  lemma GotaExample(issuingWords: seq<string>, receivingWords: seq<string>, words: seq<string>)
    requires issuingWords == ["GOTA", "FOREST", "PLACE", "LLC"] && receivingWords == ["GOTA", "LLC.pdf"]
    requires words == ["23P_3189"] + issuingWords + ["1"] + receivingWords
    ensures ParsableName(Join(words, ' '))
    ensures ParseFilename(Join(words, ' ')) == ParsedName("GOTAFORESTPLACELLC", "GOTALLC")
  {
    var number := "1";
    assert words[1..] == issuingWords + [number] + receivingWords;
    GotaSpaceFree(issuingWords, receivingWords, words);
    EntityTokensOfJoin(words);
    assert !IsDigit(issuingWords[0][0]) && !IsDigit(issuingWords[1][0]);
    assert !IsDigit(issuingWords[2][0]) && !IsDigit(issuingWords[3][0]);
    assert IsDigit(number[0]);
    ParseFilenameLayout(Join(words, ' '), issuingWords, number, receivingWords);
    GotaWords(issuingWords, receivingWords);
  }

  lemma GotaSpaceFree(issuingWords: seq<string>, receivingWords: seq<string>, words: seq<string>)
    requires issuingWords == ["GOTA", "FOREST", "PLACE", "LLC"] && receivingWords == ["GOTA", "LLC.pdf"]
    requires words == ["23P_3189"] + issuingWords + ["1"] + receivingWords
    ensures forall k :: 0 <= k < |words| ==> ' ' !in words[k]
  {
    forall k | 0 <= k < |words| ensures ' ' !in words[k] {
      if k == 0 {
      } else if k < 5 {
        assert words[k] == issuingWords[k - 1];
      } else if k == 5 {
      } else {
        assert words[k] == receivingWords[k - 6];
      }
    }
  }

  lemma GotaWords(issuingWords: seq<string>, receivingWords: seq<string>)
    requires issuingWords == ["GOTA", "FOREST", "PLACE", "LLC"] && receivingWords == ["GOTA", "LLC.pdf"]
    ensures Concat(issuingWords) == "GOTAFORESTPLACELLC"
    ensures DropExtension(Concat(receivingWords)) == "GOTALLC"
  {
    assert Concat(issuingWords[3..]) == "LLC";
    assert Concat(issuingWords[2..]) == "PLACELLC";
    assert Concat(issuingWords[1..]) == "FORESTPLACELLC";
    assert Concat(receivingWords[1..]) == "LLC.pdf";
    assert Concat(receivingWords) == "GOTALLC.pdf";
  }

  // ---------------------------------------------------------------- paths and keys

  /** A path the scan built splits on '/' into its folder and its file. */
  lemma PathSplit(folder: string, file: string)
    requires '/' !in folder && '/' !in file
    ensures Split(FilePath(folder, file), '/') == [folder, file]
  {
    assert FilePath(folder, file) == folder + ['/'] + file;
    SplitAtFirst(folder, '/', file);
    SplitWithoutSeparator(file, '/');
  }

  /** Indexing `[1]` after splitting on '/' needs a second piece. */
  predicate HasFolder(path: string) {
    |Split(path, '/')| >= 2
  }

  predicate ParsablePath(path: string) {
    HasFolder(path) && ParsableName(Split(path, '/')[1])
  }

  function PathTokens(path: string): seq<string>
    requires HasFolder(path)
  {
    EntityTokens(Split(path, '/')[1])
  }

  /** The key `_create_matching_keys` appends for a path whose file name has a number token. */
  function LegacyKey(path: string): string
    requires ParsablePath(path)
  {
    var parts := Split(path, '/');
    var parsed := ParseFilename(parts[1]);
    LegacyNormalise(parts[0] + "#" + parsed.issuing + "#" + parsed.receiving)
  }

  /** The key of a gathered path is built from its folder and its file name. */
  lemma LegacyKeyOfFilePath(folder: string, file: string)
    requires '/' !in folder && '/' !in file && ParsableName(file)
    ensures ParsablePath(FilePath(folder, file))
    ensures LegacyKey(FilePath(folder, file))
         == LegacyNormalise(folder + "#" + ParseFilename(file).issuing + "#" + ParseFilename(file).receiving)
  {
    PathSplit(folder, file);
  }

  /** Python's `s[:n]` for `n >= 0`: clamped to the length. */
  function SliceTo<T>(s: seq<T>, n: nat): (r: seq<T>)
    ensures |r| == if n <= |s| then n else |s|
    ensures forall i :: 0 <= i < |r| ==> r[i] == s[i]
  {
    if n <= |s| then s[..n] else s
  }

  /** Python's `s[n:]` for `n >= 0`: empty past the end. */
  function SliceFrom<T>(s: seq<T>, n: nat): (r: seq<T>)
    ensures |r| == if n <= |s| then |s| - n else 0
    ensures forall i :: 0 <= i < |r| ==> r[i] == s[n + i]
  {
    if n <= |s| then s[n..] else []
  }

  /** The key built from a path with `number_index` holding `n`. */
  function KeyAt(path: string, n: nat): string
    requires HasFolder(path)
  {
    var parts := Split(path, '/');
    var tokens := PathTokens(path);
    LegacyNormalise(parts[0] + "#" + Concat(SliceTo(tokens, n)) + "#" + DropExtension(Concat(SliceFrom(tokens, n + 1))))
  }

  /** `number_index` after the search over one file's tokens: the first number token, or else
      whatever an earlier file of the same run left there (`None` when no file has set it). */
  function NextNumberIndex(tokens: seq<string>, previous: Option<nat>): Option<nat> {
    if HasNumberToken(tokens) then Some(FirstNumberToken(tokens)) else previous
  }

  /** The run over `paths` completes: every path has a file part and, when its file name has no
      number token, an earlier one left `number_index` set. */
  predicate KeysDefined(paths: seq<string>, previous: Option<nat>) {
    paths == []
    || (HasFolder(paths[0])
        && NextNumberIndex(PathTokens(paths[0]), previous).Some?
        && KeysDefined(paths[1..], NextNumberIndex(PathTokens(paths[0]), previous)))
  }

  /** The keys the run appends, `previous` being `number_index` before the first path. */
  function KeysFrom(paths: seq<string>, previous: Option<nat>): (keys: seq<string>)
    requires KeysDefined(paths, previous)
    ensures |keys| == |paths|
  {
    if paths == [] then []
    else
      var n := NextNumberIndex(PathTokens(paths[0]), previous);
      [KeyAt(paths[0], n.value)] + KeysFrom(paths[1..], n)
  }

  /** One step of the run. */
  lemma KeysFromStep(paths: seq<string>, previous: Option<nat>)
    requires paths != [] && KeysDefined(paths, previous)
    ensures var n := NextNumberIndex(PathTokens(paths[0]), previous);
      n.Some? && KeysDefined(paths[1..], n) && KeysFrom(paths, previous) == [KeyAt(paths[0], n.value)] + KeysFrom(paths[1..], n)
  {
  }

  /** The loop's step: appending the key of path `i` moves the run on by one path. */
  lemma KeysFromAppend(paths: seq<string>, i: nat, previous: Option<nat>, keys: seq<string>, key: string)
    requires i < |paths| && KeysDefined(paths[i..], previous) && KeysDefined(paths, None)
    requires keys + KeysFrom(paths[i..], previous) == KeysFrom(paths, None)
    requires HasFolder(paths[i]) && NextNumberIndex(PathTokens(paths[i]), previous).Some?
    requires key == KeyAt(paths[i], NextNumberIndex(PathTokens(paths[i]), previous).value)
    ensures KeysDefined(paths[i + 1..], NextNumberIndex(PathTokens(paths[i]), previous))
    ensures (keys + [key]) + KeysFrom(paths[i + 1..], NextNumberIndex(PathTokens(paths[i]), previous)) == KeysFrom(paths, None)
  {
    var rest := paths[i..];
    assert rest[0] == paths[i] && rest[1..] == paths[i + 1..];
    KeysFromStep(rest, previous);
  }

  /** With a number token the clamped slices are the plain ones, so the key is `LegacyKey`. */
  lemma KeyAtFirstNumber(path: string)
    requires ParsablePath(path)
    ensures KeyAt(path, FirstNumberToken(PathTokens(path))) == LegacyKey(path)
  {
    var parts := Split(path, '/');
    var tokens := PathTokens(path);
    var n := FirstNumberToken(tokens);
    assert tokens == EntityTokens(parts[1]);
    SliceToWithin(tokens, n);
    SliceFromWithin(tokens, n + 1);
    ParseFilenameOfTokens(parts[1], tokens, n);
  }

  lemma ParseFilenameOfTokens(filename: string, tokens: seq<string>, n: nat)
    requires ParsableName(filename) && tokens == EntityTokens(filename) && n == FirstNumberToken(tokens)
    ensures ParseFilename(filename) == ParsedName(Concat(tokens[..n]), DropExtension(Concat(tokens[n + 1..])))
  {
  }

  lemma SliceToWithin<T>(s: seq<T>, n: nat)
    requires n <= |s|
    ensures SliceTo(s, n) == s[..n]
  {
  }

  lemma SliceFromWithin<T>(s: seq<T>, n: nat)
    requires n <= |s|
    ensures SliceFrom(s, n) == s[n..]
  {
  }

  /** When every file name has a number token the run completes, whatever was left before,
      and each key is the one its own path determines. */
  lemma {:induction false} KeysOfParsablePaths(paths: seq<string>, previous: Option<nat>)
    requires forall i :: 0 <= i < |paths| ==> ParsablePath(paths[i])
    ensures KeysDefined(paths, previous)
    ensures forall i :: 0 <= i < |paths| ==> KeysFrom(paths, previous)[i] == LegacyKey(paths[i])
  {
    if paths != [] {
      var n := NextNumberIndex(PathTokens(paths[0]), previous);
      var rest := paths[1..];
      forall i | 0 <= i < |rest| ensures ParsablePath(rest[i]) {
        assert rest[i] == paths[i + 1];
      }
      KeysOfParsablePaths(rest, n);
      KeyAtFirstNumber(paths[0]);
      KeysFromStep(paths, previous);
      LegacyKeysCons(paths, rest, KeysFrom(paths, previous), KeysFrom(rest, n));
    }
  }

  /** The keys of a list of paths, the first one's key followed by the rest's. */
  lemma LegacyKeysCons(paths: seq<string>, rest: seq<string>, keys: seq<string>, tail: seq<string>)
    requires paths != [] && rest == paths[1..]
    requires forall i :: 0 <= i < |paths| ==> ParsablePath(paths[i])
    requires |tail| == |rest| && forall i :: 0 <= i < |rest| ==> ParsablePath(rest[i]) && tail[i] == LegacyKey(rest[i])
    requires keys == [LegacyKey(paths[0])] + tail
    ensures forall i :: 0 <= i < |paths| ==> keys[i] == LegacyKey(paths[i])
  {
    forall i | 0 < i < |paths| ensures keys[i] == LegacyKey(paths[i]) {
      assert rest[i - 1] == paths[i];
    }
  }

  /** A file name without a number token reuses the `number_index` of the file before it. */
  lemma StaleNumberIndex(p: string, q: string)
    requires ParsablePath(p) && HasFolder(q) && !HasNumberToken(PathTokens(q))
    ensures KeysDefined([p, q], None)
    ensures KeysFrom([p, q], None) == [LegacyKey(p), KeyAt(q, FirstNumberToken(PathTokens(p)))]
  {
    KeyAtFirstNumber(p);
    assert [p, q][1..] == [q];
    assert [q][1..] == [];
  }

  /** A run whose first file name has no number token stops with `number_index` unbound. */
  lemma FirstWithoutNumberFails(paths: seq<string>)
    requires paths != [] && HasFolder(paths[0]) && !HasNumberToken(PathTokens(paths[0]))
    ensures !KeysDefined(paths, None)
  {
  }

  // ---------------------------------------------------------------- the two normalisations

  predicate HasApostrophe(s: string) {
    exists i :: 0 <= i < |s| && (s[i] == APOSTROPHE || s[i] == RIGHT_SINGLE_QUOTE)
  }

  /** The two normalisations agree exactly on strings without an apostrophe, so a name such as
      "O'BRIEN LLC" gets different keys from the two processors. */
  lemma NormalisationsAgreeIff(s: string)
    ensures LegacyNormalise(s) == Normalise(s) <==> !HasApostrophe(s)
  {
    var low := Lower(s);
    assert LEGACY_STOP_CHARS <= KEY_STOP_CHARS;
    assert KEY_STOP_CHARS - LEGACY_STOP_CHARS == {APOSTROPHE, RIGHT_SINGLE_QUOTE};
    forall i | 0 <= i < |s| ensures (low[i] in KEY_STOP_CHARS - LEGACY_STOP_CHARS) <==> (s[i] == APOSTROPHE || s[i] == RIGHT_SINGLE_QUOTE) {
      assert low[i] == LowerChar(s[i]);
    }
    RemoveCharsLength(low, LEGACY_STOP_CHARS, KEY_STOP_CHARS);
    if !HasApostrophe(s) {
      RemoveCharsSame(low, LEGACY_STOP_CHARS, KEY_STOP_CHARS);
    } else {
      var i :| 0 <= i < |s| && (s[i] == APOSTROPHE || s[i] == RIGHT_SINGLE_QUOTE);
      assert low[i] in KEY_STOP_CHARS - LEGACY_STOP_CHARS;
    }
  }

  // ---------------------------------------------------------------- the processor

  class K1BatchProcessor {
    var k1FilePaths: seq<string>
    var k1FileMatchingKeys: seq<string>

    /** `__init__`: gather, then make one key per path. */
    constructor (listing: seq<DirEntry>)
      requires KeysDefined(LegacyPaths(listing), None)
      ensures k1FilePaths == LegacyPaths(listing)
      ensures k1FileMatchingKeys == KeysFrom(LegacyPaths(listing), None)
    {
      k1FilePaths := [];
      k1FileMatchingKeys := [];
      new;
      GatherFiles(listing);
      assert k1FilePaths == LegacyPaths(listing);
      CreateMatchingKeys();
    }

    /** `_gather_files`: append the path of every PDF of every directory. */
    method GatherFiles(listing: seq<DirEntry>)
      modifies this
      ensures k1FilePaths == old(k1FilePaths) + LegacyPaths(listing)
      ensures k1FileMatchingKeys == old(k1FileMatchingKeys)
    {
      var d := 0;
      while d < |listing|
        invariant 0 <= d <= |listing|
        invariant k1FilePaths == old(k1FilePaths) + LegacyPaths(listing[..d])
        invariant k1FileMatchingKeys == old(k1FileMatchingKeys)
      {
        var entry := listing[d];
        LegacyPathsStep(listing, d);
        if entry.isDirectory {
          ghost var base := k1FilePaths;
          var f := 0;
          while f < |entry.files|
            invariant 0 <= f <= |entry.files|
            invariant k1FilePaths == base + FolderPaths(entry.name, entry.files[..f])
            invariant k1FileMatchingKeys == old(k1FileMatchingKeys)
          {
            var file := entry.files[f];
            FolderPathsStep(entry.name, entry.files, f);
            if EndsWith(Lower(file), PDF_SUFFIX) {
              ghost var gathered := FolderPaths(entry.name, entry.files[..f]);
              assert (base + gathered) + [FilePath(entry.name, file)] == base + (gathered + [FilePath(entry.name, file)]);
              k1FilePaths := k1FilePaths + [FilePath(entry.name, file)];
            }
            f := f + 1;
          }
          assert entry.files[..f] == entry.files;
          assert base + FolderPaths(entry.name, entry.files) == old(k1FilePaths) + LegacyPaths(listing[..d + 1]);
        }
        d := d + 1;
      }
      assert listing[..d] == listing;
    }

    /** The `for ... break` loop over one file's tokens: it sets `number_index` to the first
        all-digit token and otherwise leaves the value it had. */
    static method FindNumberIndex(tokens: seq<string>, previous: Option<nat>) returns (n: Option<nat>)
      ensures HasNumberToken(tokens) ==> n.Some? && n.value < |tokens| && IsDigits(tokens[n.value])
      ensures HasNumberToken(tokens) ==> forall j :: 0 <= j < n.value ==> !IsDigits(tokens[j])
      ensures !HasNumberToken(tokens) ==> n == previous
    {
      n := previous;
      var i := 0;
      while i < |tokens|
        invariant 0 <= i <= |tokens|
        invariant forall j :: 0 <= j < i ==> !IsDigits(tokens[j])
        invariant n == previous
      {
        if IsDigits(tokens[i]) {
          n := Some(i);
          return;
        }
        i := i + 1;
      }
    }

    /** The body of the loop of `_create_matching_keys` for one path: split off the folder and
        the Roth ID, find `number_index`, join the two runs of tokens and normalise. */
    static method PathKey(path: string, previous: Option<nat>) returns (key: string, numberIndex: Option<nat>)
      requires HasFolder(path) && NextNumberIndex(PathTokens(path), previous).Some?
      ensures numberIndex == NextNumberIndex(PathTokens(path), previous)
      ensures key == KeyAt(path, numberIndex.value)
    {
      var parts := Split(path, '/');
      var investmentName := parts[0];
      var filename := parts[1];
      var tokens := Split(filename, ' ')[1..];
      numberIndex := FindNumberIndex(tokens, previous);
      if HasNumberToken(tokens) {
        FirstNumberTokenUnique(tokens, numberIndex.value);
      }
      var n := numberIndex.value;
      var issuing := Concat(SliceTo(tokens, n));
      var receiving := DropExtension(Concat(SliceFrom(tokens, n + 1)));
      key := LegacyNormalise(investmentName + "#" + issuing + "#" + receiving);
    }

    /** `_create_matching_keys`: one key per gathered path, in path order. */
    method CreateMatchingKeys()
      requires KeysDefined(k1FilePaths, None)
      modifies this
      ensures k1FilePaths == old(k1FilePaths)
      ensures k1FileMatchingKeys == old(k1FileMatchingKeys) + KeysFrom(k1FilePaths, None)
    {
      var paths := k1FilePaths;
      var keys: seq<string> := [];
      var numberIndex: Option<nat> := None;
      var i := 0;
      while i < |paths|
        invariant 0 <= i <= |paths|
        invariant k1FilePaths == paths && k1FileMatchingKeys == old(k1FileMatchingKeys)
        invariant KeysDefined(paths[i..], numberIndex)
        invariant keys + KeysFrom(paths[i..], numberIndex) == KeysFrom(paths, None)
      {
        ghost var previous := numberIndex;
        KeysFromStep(paths[i..], previous);
        assert paths[i..][0] == paths[i];
        var key;
        key, numberIndex := PathKey(paths[i], numberIndex);
        KeysFromAppend(paths, i, previous, keys, key);
        keys := keys + [key];
        i := i + 1;
      }
      assert paths[i..] == [];
      k1FileMatchingKeys := k1FileMatchingKeys + keys;
    }
  }
}
