/**
 * src/files.ts (and its copies `updateFile` and `updateArbFiles` in
 * src/action.ts): keeping the ARB files of the configured directory in step.
 *
 * The directory is a value handed in and handed back. Its entries are read in
 * the order the listing gives; a file is either a JSON object (a key/value
 * map), or text that `JSON.parse` rejects; a name with no file is read as `{}`.
 * A write to a name in `unwritable` throws.
 */
module ArbFiles {
  import opened Wrappers
  import opened JsText
  import opened Records
  import opened Utils

  type Entries = map<string, string>

  datatype Content = Parsed(entries: Entries) | Corrupt

  datatype Disk = Disk(
    listable: bool,
    listing: seq<string>,
    files: map<string, Content>,
    unwritable: set<string>)

  predicate NoDuplicates(s: seq<string>) {
    forall i, j :: 0 <= i < j < |s| ==> s[i] != s[j]
  }

  /** A directory lists each name once. */
  predicate ValidDisk(d: Disk) {
    NoDuplicates(d.listing)
  }

  /** What is stored under a name: None when there is no file. */
  function Lookup(d: Disk, name: string): Option<Content> {
    if name in d.files then Some(d.files[name]) else None
  }

  /** `JSON.parse` accepts the file's text, `{}` standing in for a missing file. */
  predicate Parses(d: Disk, name: string) {
    name !in d.files || d.files[name].Parsed?
  }

  /** The parsed map, `{}` for a missing file. */
  function Read(d: Disk, name: string): Entries {
    if name in d.files && d.files[name].Parsed? then d.files[name].entries else map[]
  }

  predicate Writable(d: Disk, name: string) {
    name !in d.unwritable
  }

  /** `writeFileSync(name, JSON.stringify(e))`. */
  function Write(d: Disk, name: string, e: Entries): Disk {
    d.(files := d.files[name := Parsed(e)])
  }

  /** The directory after a successful `updateFile(name, key, value)`. */
  function SetKey(d: Disk, name: string, key: string, value: string): Disk {
    Write(d, name, Read(d, name)[key := value])
  }

  /**
   * `updateFile(filename, key, value)`: read (or start from `{}`), parse, set
   * one key, write back; false when parsing or writing throws.
   */
  method UpdateFile(d: Disk, name: string, key: string, value: string) returns (ok: bool, d': Disk)
    ensures ok <==> Parses(d, name) && Writable(d, name)
    ensures d' == if ok then SetKey(d, name, key, value) else d
  {
    if !Parses(d, name) {
      return false, d;
    }
    var arbJson := Read(d, name);
    arbJson := arbJson[key := value];
    if !Writable(d, name) {
      return false, d;
    }
    return true, Write(d, name, arbJson);
  }

  /** A successful update sets `key` to `value`, keeps every other key, and touches no other file. */
  lemma SetKeyEffect(d: Disk, name: string, key: string, value: string)
    ensures var d' := SetKey(d, name, key, value);
      && Parses(d', name)
      && Read(d', name) == Read(d, name)[key := value]
      && (forall k :: k != key ==> (k in Read(d', name) <==> k in Read(d, name)))
      && (forall k :: k != key && k in Read(d, name) ==> Read(d', name)[k] == Read(d, name)[k])
      && (forall n :: n != name ==> Lookup(d', n) == Lookup(d, n))
  {
  }

  /** A missing file ends up holding exactly the one key. */
  lemma MissingFileHoldsOneKey(d: Disk, name: string, key: string, value: string)
    requires name !in d.files
    ensures Read(SetKey(d, name, key, value), name) == map[key := value]
  {
  }

  /** Setting the same key to the same value twice leaves what setting it once leaves. */
  lemma SetKeyIdempotent(d: Disk, name: string, key: string, value: string)
    ensures var d' := SetKey(d, name, key, value);
      Parses(d', name) && (Writable(d', name) <==> Writable(d, name)) && SetKey(d', name, key, value) == d'
  {
    var d' := SetKey(d, name, key, value);
    assert Read(d', name)[key := value] == Read(d', name);
    assert d'.files[name := Parsed(Read(d', name))] == d'.files;
  }

  /** `arbFile.split("_")[1].split(".")[0]`: None where `split("_")[1]` is `undefined` and the call throws. */
  function LangCode(name: string): Option<string> {
    match SecondPiece(name, '_')
    case None => None
    case Some(segment) => Some(Before(segment, '.'))
  }

  /** The code is undefined exactly when the name has no `_`. */
  lemma LangCodeDefined(name: string)
    ensures LangCode(name).None? <==> '_' !in name
  {
    assert SecondPiece(name, '_').None? <==> After(name, '_').None?;
    assert LangCode(name).None? <==> SecondPiece(name, '_').None?;
  }

  /**
   * `<base>_<code>.<ext>` gives `<code>`, whatever the extension holds; so does
   * `<base>_<code>_<rest>`, which is why `app_en_US.arb` gives `en`.
   */
  lemma LangCodeOfName(base: string, code: string, sep: char, rest: string)
    requires '_' !in base && '_' !in code && '.' !in code
    requires sep == '.' || sep == '_'
    ensures LangCode(base + "_" + code + [sep] + rest) == Some(code)
  {
    var name := base + "_" + code + [sep] + rest;
    var tail := code + [sep] + rest;
    assert name == base + ['_'] + tail;
    AfterOfJoin(base, '_', tail);
    if sep == '_' {
      BeforeOfJoin(code, '_', rest);
      BeforeWithout(code, '.');
    } else {
      assert tail == (code + ['.']) + rest;
      BeforePrefix(code + ['.'], '_', rest);
      BeforeOfJoin(code, '.', Before(rest, '_'));
    }
  }

  /** `readdirSync(dir).filter((f) => f.endsWith(".arb"))`. */
  function ArbNames(listing: seq<string>): (r: seq<string>)
    ensures forall x :: x in r <==> x in listing && EndsWith(x, ".arb")
    ensures NoDuplicates(listing) ==> NoDuplicates(r)
  {
    if listing == [] then []
    else
      var init := listing[..|listing| - 1];
      var last := listing[|listing| - 1];
      assert listing == init + [last];
      assert NoDuplicates(listing) ==> NoDuplicates(init) && last !in init by {
        if NoDuplicates(listing) {
          forall i, j | 0 <= i < j < |init| ensures init[i] != init[j] { assert init[i] == listing[i]; }
        }
      }
      if EndsWith(last, ".arb") then ArbNames(init) + [last] else ArbNames(init)
  }

  /** A single entry is kept exactly when it ends in `.arb`. */
  lemma ArbNamesOne(x: string)
    ensures ArbNames([x]) == if EndsWith(x, ".arb") then [x] else []
  {
    assert [x][..0] == [];
  }

  /** The filter keeps the listing's order: filtering a concatenation concatenates the filtered parts. */
  lemma {:induction false} ArbNamesAppend(a: seq<string>, b: seq<string>)
    ensures ArbNames(a + b) == ArbNames(a) + ArbNames(b)
    decreases |b|
  {
    if b == [] {
      assert a + b == a;
    } else {
      var init := b[..|b| - 1];
      var last := b[|b| - 1];
      assert (a + b)[..|a + b| - 1] == a + init;
      assert (a + b)[|a + b| - 1] == last;
      ArbNamesAppend(a, init);
    }
  }

  /*
   * The single-key update: `updateArbFiles(key, value)`.
   */

  /**
   * The value written to one file: `translateText(value, code)` when
   * translation is on (a file name is never empty, so nothing else gates it,
   * and the template file is translated too), `value` as it is otherwise.
   * None where computing the code throws.
   */
  function FileValue(autoTranslate: bool, translate: (string, string) -> string, value: string, name: string): Option<string> {
    if autoTranslate then
      match LangCode(name)
      case None => None
      case Some(code) => Some(translate(value, code))
    else Some(value)
  }

  /** How an async function ends: it returns a boolean, or its promise is rejected. */
  datatype Outcome = Returned(ok: bool) | Raised

  /**
   * The loop `for (arbFile of arbFiles) { val = ...; ok = ok && updateFile(...) }`
   * run over `names` with `ok` so far: once `ok` is false no file is written,
   * but the values are still computed and may still throw.
   */
  function SyncFrom(d: Disk, names: seq<string>, key: string, value: string,
                    autoTranslate: bool, translate: (string, string) -> string, ok: bool): (Outcome, Disk)
    decreases |names|
  {
    if names == [] then (Returned(ok), d)
    else
      match FileValue(autoTranslate, translate, value, names[0])
      case None => (Raised, d)
      case Some(v) =>
        var written := ok && Parses(d, names[0]) && Writable(d, names[0]);
        SyncFrom(if written then SetKey(d, names[0], key, v) else d, names[1..], key, value, autoTranslate, translate, written)
  }

  /** A file that the single-key loop reaches and writes. */
  predicate SyncGood(d: Disk, name: string, value: string, autoTranslate: bool, translate: (string, string) -> string) {
    FileValue(autoTranslate, translate, value, name).Some? && Parses(d, name) && Writable(d, name)
  }

  /** Every file up to and including `names[i]` is good. */
  predicate SyncPrefixGood(d: Disk, names: seq<string>, i: nat, value: string,
                           autoTranslate: bool, translate: (string, string) -> string)
    requires i < |names|
  {
    forall j :: 0 <= j <= i ==> SyncGood(d, names[j], value, autoTranslate, translate)
  }

  lemma NoDuplicatesTail(names: seq<string>)
    requires NoDuplicates(names) && names != []
    ensures NoDuplicates(names[1..])
    ensures forall j :: 0 < j < |names| ==> names[j] != names[0] && names[1..][j - 1] == names[j]
  {
  }

  /** Directories that agree outside `names[0]` agree on which later files are good. */
  lemma SyncPrefixShift(d: Disk, d1: Disk, names: seq<string>, i: nat, value: string,
                        autoTranslate: bool, translate: (string, string) -> string)
    requires NoDuplicates(names) && 0 < i < |names|
    requires d1.unwritable == d.unwritable
    requires forall n :: n != names[0] ==> Lookup(d1, n) == Lookup(d, n)
    ensures SyncPrefixGood(d, names, i, value, autoTranslate, translate)
        <==> SyncGood(d, names[0], value, autoTranslate, translate) && SyncPrefixGood(d1, names[1..], i - 1, value, autoTranslate, translate)
  {
    NoDuplicatesTail(names);
    forall j | 0 < j <= i
      ensures SyncGood(d1, names[1..][j - 1], value, autoTranslate, translate) == SyncGood(d, names[j], value, autoTranslate, translate)
    {
      assert Lookup(d1, names[j]) == Lookup(d, names[j]);
    }
  }

  /** Only the named files change, and nothing but their contents. */
  lemma {:induction false} SyncFrame(d: Disk, names: seq<string>, key: string, value: string,
                                     autoTranslate: bool, translate: (string, string) -> string, ok: bool)
    ensures var d' := SyncFrom(d, names, key, value, autoTranslate, translate, ok).1;
      && d'.listable == d.listable && d'.listing == d.listing && d'.unwritable == d.unwritable
      && forall n :: n !in names ==> Lookup(d', n) == Lookup(d, n)
    decreases |names|
  {
    if names != [] && FileValue(autoTranslate, translate, value, names[0]).Some? {
      var v := FileValue(autoTranslate, translate, value, names[0]).value;
      var written := ok && Parses(d, names[0]) && Writable(d, names[0]);
      SyncFrame(if written then SetKey(d, names[0], key, v) else d, names[1..], key, value, autoTranslate, translate, written);
    }
  }

  /**
   * `updateArbFiles` reports true exactly when every file is good; its
   * promise is rejected exactly when translation is on and some name has no
   * language code.
   */
  lemma {:induction false} SyncOutcome(d: Disk, names: seq<string>, key: string, value: string,
                                       autoTranslate: bool, translate: (string, string) -> string, ok: bool)
    requires NoDuplicates(names)
    ensures var r := SyncFrom(d, names, key, value, autoTranslate, translate, ok).0;
      && (r == Raised <==> exists i :: 0 <= i < |names| && FileValue(autoTranslate, translate, value, names[i]).None?)
      && (r == Returned(true) <==> ok && forall i :: 0 <= i < |names| ==> SyncGood(d, names[i], value, autoTranslate, translate))
    decreases |names|
  {
    if names != [] {
      var n := names[0];
      NoDuplicatesTail(names);
      if FileValue(autoTranslate, translate, value, n).Some? {
        var v := FileValue(autoTranslate, translate, value, n).value;
        var written := ok && Parses(d, n) && Writable(d, n);
        var d1 := if written then SetKey(d, n, key, v) else d;
        SyncOutcome(d1, names[1..], key, value, autoTranslate, translate, written);
        forall i | 0 < i < |names| ensures SyncGood(d1, names[i], value, autoTranslate, translate) == SyncGood(d, names[i], value, autoTranslate, translate) {
          assert Lookup(d1, names[i]) == Lookup(d, names[i]);
        }
      }
    }
  }

  /**
   * Which files `updateArbFiles` writes: file `i` gets its value when every
   * file up to and including it is good; a file after the first failing one
   * (or after the one that throws) is left as it was.
   */
  lemma {:induction false} SyncWrites(d: Disk, names: seq<string>, key: string, value: string,
                                      autoTranslate: bool, translate: (string, string) -> string, ok: bool, i: nat)
    requires NoDuplicates(names) && i < |names|
    ensures var d' := SyncFrom(d, names, key, value, autoTranslate, translate, ok).1;
      if ok && SyncPrefixGood(d, names, i, value, autoTranslate, translate)
      then Lookup(d', names[i]) == Some(Parsed(Read(d, names[i])[key := FileValue(autoTranslate, translate, value, names[i]).value]))
      else Lookup(d', names[i]) == Lookup(d, names[i])
    decreases |names|
  {
    var n := names[0];
    NoDuplicatesTail(names);
    if FileValue(autoTranslate, translate, value, n).Some? {
      var v := FileValue(autoTranslate, translate, value, n).value;
      var written := ok && Parses(d, n) && Writable(d, n);
      var d1 := if written then SetKey(d, n, key, v) else d;
      assert SyncFrom(d, names, key, value, autoTranslate, translate, ok)
          == SyncFrom(d1, names[1..], key, value, autoTranslate, translate, written);
      if i == 0 {
        SyncFrame(d1, names[1..], key, value, autoTranslate, translate, written);
        assert SyncPrefixGood(d, names, 0, value, autoTranslate, translate) <==> SyncGood(d, n, value, autoTranslate, translate);
      } else {
        SyncWrites(d1, names[1..], key, value, autoTranslate, translate, written, i - 1);
        assert Lookup(d1, names[i]) == Lookup(d, names[i]);
        SyncPrefixShift(d, d1, names, i, value, autoTranslate, translate);
      }
    } else {
      assert !SyncGood(d, n, value, autoTranslate, translate);
    }
  }

  /** What `updateArbFiles` ends with: a listing that throws rejects the promise before any write. */
  function SyncAfter(d: Disk, key: string, value: string, autoTranslate: bool, translate: (string, string) -> string): (Outcome, Disk) {
    if !d.listable then (Raised, d) else SyncFrom(d, ArbNames(d.listing), key, value, autoTranslate, translate, true)
  }

  /**
   * `updateArbFiles(key, value)`: list the directory (a listing that throws
   * rejects the promise), then update each `.arb` file in listing order,
   * keeping `ok = ok && updateFile(...)`.
   */
  method UpdateArbFiles(d: Disk, key: string, value: string,
                        autoTranslate: bool, translate: (string, string) -> string) returns (r: Outcome, d': Disk)
    ensures (r, d') == SyncAfter(d, key, value, autoTranslate, translate)
    ensures ValidDisk(d) ==> (r == Returned(true) <==>
      d.listable && forall n :: n in ArbNames(d.listing) ==> SyncGood(d, n, value, autoTranslate, translate))
    ensures forall n :: n !in ArbNames(d.listing) ==> Lookup(d', n) == Lookup(d, n)
  {
    if !d.listable {
      return Raised, d;
    }
    var arbFiles := ArbNames(d.listing);
    var ok := true;
    var raised := false;
    d' := d;
    var i := 0;
    while i < |arbFiles| && !raised
      invariant 0 <= i <= |arbFiles|
      invariant raised ==> SyncFrom(d, arbFiles, key, value, autoTranslate, translate, true) == (Raised, d')
      invariant !raised ==> (SyncFrom(d, arbFiles, key, value, autoTranslate, translate, true)
                          == SyncFrom(d', arbFiles[i..], key, value, autoTranslate, translate, ok))
      decreases |arbFiles| - i, if raised then 0 else 1
    {
      var arbFile := arbFiles[i];
      assert arbFiles[i..][1..] == arbFiles[i + 1..];
      var val := value;
      if autoTranslate {
        var code := LangCode(arbFile);
        if code.None? {
          raised := true;
        } else {
          val := translate(value, code.value);
        }
      }
      if !raised {
        if ok {
          ok, d' := UpdateFile(d', arbFile, key, val);
        }
        i := i + 1;
      }
    }
    if !raised {
      assert arbFiles[i..] == [];
    }
    r := if raised then Raised else Returned(ok);
    SyncFrame(d, arbFiles, key, value, autoTranslate, translate, true);
    if ValidDisk(d) {
      SyncOutcome(d, arbFiles, key, value, autoTranslate, translate, true);
    }
  }

  /*
   * The batch update: `updateArbFilesBatch(keyValues)`.
   */

  /** `translateTextBatch(texts, lang)` when translation is on, the texts themselves otherwise. */
  function Translations(autoTranslate: bool, translateBatch: (seq<string>, string) -> seq<string>,
                        texts: seq<string>, lang: string): seq<string> {
    if autoTranslate then translateBatch(texts, lang) else texts
  }

  /** `keyChunks[i][idx]` used as a property name: `"undefined"` past the end of the chunk. */
  function KeyAt(keys: seq<string>, idx: nat): string {
    if idx < |keys| then keys[idx] else "undefined"
  }

  /** `translations.forEach((v, idx) => { arbJson[keys[idx]] = v })`. */
  function MergePairs(m: Entries, keys: seq<string>, values: seq<string>): Entries {
    if values == [] then m
    else MergePairs(m, keys, values[..|values| - 1])[KeyAt(keys, |values| - 1) := values[|values| - 1]]
  }

  /** The chunk loop: chunk `i` of the keys takes the translations of chunk `i` of the texts. */
  function MergeChunks(m: Entries, keyChunks: seq<seq<string>>, valueChunks: seq<seq<string>>): Entries
    requires |keyChunks| == |valueChunks|
    decreases |keyChunks|
  {
    if keyChunks == [] then m
    else MergeChunks(MergePairs(m, keyChunks[0], valueChunks[0]), keyChunks[1..], valueChunks[1..])
  }

  /** The translations of every text chunk for one file. The ensures only exposes the elements
      to callers; what they mean is stated by `MergedWithTranslation`. */
  function TranslatedChunks(textChunks: seq<seq<string>>, autoTranslate: bool,
                            translateBatch: (seq<string>, string) -> seq<string>, lang: string): (r: seq<seq<string>>)
    ensures |r| == |textChunks|
    ensures forall i :: 0 <= i < |r| ==> r[i] == Translations(autoTranslate, translateBatch, textChunks[i], lang)
  {
    seq(|textChunks|, i requires 0 <= i < |textChunks| => Translations(autoTranslate, translateBatch, textChunks[i], lang))
  }

  /** The map one file ends with: its old map with every chunk merged in. */
  function MergedEntries(m: Entries, dict: Dict, autoTranslate: bool,
                         translateBatch: (seq<string>, string) -> seq<string>, lang: string): Entries {
    var keyChunks := Chunk(Keys(dict), ChunkSize);
    var textChunks := Chunk(Values(dict), ChunkSize);
    ChunksAligned(Keys(dict), Values(dict), ChunkSize);
    MergeChunks(m, keyChunks, TranslatedChunks(textChunks, autoTranslate, translateBatch, lang))
  }

  /** A file the batch loop passes: it parses, has a language code, and can be written. */
  predicate BatchGood(d: Disk, name: string) {
    Parses(d, name) && LangCode(name).Some? && Writable(d, name)
  }

  /** The merged map a good file is written with. */
  function BatchEntries(d: Disk, name: string, dict: Dict, autoTranslate: bool,
                        translateBatch: (seq<string>, string) -> seq<string>): Entries
    requires LangCode(name).Some?
  {
    MergedEntries(Read(d, name), dict, autoTranslate, translateBatch, LangCode(name).value)
  }

  /**
   * The file loop of `updateArbFilesBatch` run over `names`: any exception
   * (parse, language code, write) leaves the `try` and the result is false;
   * files already written stay written.
   */
  function BatchFrom(d: Disk, names: seq<string>, dict: Dict, autoTranslate: bool,
                     translateBatch: (seq<string>, string) -> seq<string>): (bool, Disk)
    decreases |names|
  {
    if names == [] then (true, d)
    else if !BatchGood(d, names[0]) then (false, d)
    else BatchFrom(Write(d, names[0], BatchEntries(d, names[0], dict, autoTranslate, translateBatch)),
                   names[1..], dict, autoTranslate, translateBatch)
  }

  /** What `updateArbFilesBatch` returns and leaves: a listing that throws is caught, nothing touched. */
  function BatchAfter(d: Disk, dict: Dict, autoTranslate: bool,
                      translateBatch: (seq<string>, string) -> seq<string>): (bool, Disk) {
    if !d.listable then (false, d) else BatchFrom(d, ArbNames(d.listing), dict, autoTranslate, translateBatch)
  }

  /** Every file up to and including `names[i]` is good. */
  predicate BatchPrefixGood(d: Disk, names: seq<string>, i: nat)
    requires i < |names|
  {
    forall j :: 0 <= j <= i ==> BatchGood(d, names[j])
  }

  lemma BatchPrefixShift(d: Disk, d1: Disk, names: seq<string>, i: nat)
    requires NoDuplicates(names) && 0 < i < |names|
    requires d1.unwritable == d.unwritable
    requires forall n :: n != names[0] ==> Lookup(d1, n) == Lookup(d, n)
    ensures BatchPrefixGood(d, names, i) <==> BatchGood(d, names[0]) && BatchPrefixGood(d1, names[1..], i - 1)
  {
    NoDuplicatesTail(names);
    forall j | 0 < j <= i ensures BatchGood(d1, names[1..][j - 1]) == BatchGood(d, names[j]) {
      assert Lookup(d1, names[j]) == Lookup(d, names[j]);
    }
  }

  lemma {:induction false} BatchFrame(d: Disk, names: seq<string>, dict: Dict, autoTranslate: bool,
                                      translateBatch: (seq<string>, string) -> seq<string>)
    ensures var d' := BatchFrom(d, names, dict, autoTranslate, translateBatch).1;
      && d'.listable == d.listable && d'.listing == d.listing && d'.unwritable == d.unwritable
      && forall n :: n !in names ==> Lookup(d', n) == Lookup(d, n)
    decreases |names|
  {
    if names != [] && BatchGood(d, names[0]) {
      var e := BatchEntries(d, names[0], dict, autoTranslate, translateBatch);
      BatchFrame(Write(d, names[0], e), names[1..], dict, autoTranslate, translateBatch);
    }
  }

  /** The batch reports true exactly when every file is good. */
  lemma {:induction false} BatchOutcome(d: Disk, names: seq<string>, dict: Dict, autoTranslate: bool,
                                        translateBatch: (seq<string>, string) -> seq<string>)
    requires NoDuplicates(names)
    ensures BatchFrom(d, names, dict, autoTranslate, translateBatch).0 <==> forall i :: 0 <= i < |names| ==> BatchGood(d, names[i])
    decreases |names|
  {
    if names != [] && BatchGood(d, names[0]) {
      var n := names[0];
      NoDuplicatesTail(names);
      var d1 := Write(d, n, BatchEntries(d, n, dict, autoTranslate, translateBatch));
      BatchOutcome(d1, names[1..], dict, autoTranslate, translateBatch);
      forall i | 0 < i < |names| ensures BatchGood(d1, names[i]) == BatchGood(d, names[i]) {
        assert Lookup(d1, names[i]) == Lookup(d, names[i]);
      }
    }
  }

  /** File `i` is written once, with every chunk merged, when every file up to it is good; otherwise it is untouched. */
  lemma {:induction false} BatchWrites(d: Disk, names: seq<string>, dict: Dict, autoTranslate: bool,
                                       translateBatch: (seq<string>, string) -> seq<string>, i: nat)
    requires NoDuplicates(names) && i < |names|
    ensures var d' := BatchFrom(d, names, dict, autoTranslate, translateBatch).1;
      if BatchPrefixGood(d, names, i)
      then Lookup(d', names[i]) == Some(Parsed(BatchEntries(d, names[i], dict, autoTranslate, translateBatch)))
      else Lookup(d', names[i]) == Lookup(d, names[i])
    decreases |names|
  {
    var n := names[0];
    NoDuplicatesTail(names);
    if BatchGood(d, n) {
      var d1 := Write(d, n, BatchEntries(d, n, dict, autoTranslate, translateBatch));
      assert BatchFrom(d, names, dict, autoTranslate, translateBatch) == BatchFrom(d1, names[1..], dict, autoTranslate, translateBatch);
      if i == 0 {
        BatchFrame(d1, names[1..], dict, autoTranslate, translateBatch);
        assert BatchPrefixGood(d, names, 0) <==> BatchGood(d, n);
      } else {
        BatchWrites(d1, names[1..], dict, autoTranslate, translateBatch, i - 1);
        assert Lookup(d1, names[i]) == Lookup(d, names[i]);
        BatchPrefixShift(d, d1, names, i);
      }
    } else {
      assert !BatchPrefixGood(d, names, i);
    }
  }

  /** Pairs up two lists of one length. The ensures exposes the elements so that callers need
      not unfold the body. */
  function Zip(a: seq<string>, b: seq<string>): (r: seq<(string, string)>)
    requires |a| == |b|
    ensures |r| == |a| && forall i :: 0 <= i < |a| ==> r[i] == (a[i], b[i])
  {
    seq(|a|, i requires 0 <= i < |a| => (a[i], b[i]))
  }

  lemma ZipAppend(a1: seq<string>, b1: seq<string>, a2: seq<string>, b2: seq<string>)
    requires |a1| == |b1| && |a2| == |b2|
    ensures Zip(a1 + a2, b1 + b2) == Zip(a1, b1) + Zip(a2, b2)
  {
  }

  /** Keys past the values are never read, so a longer key list merges the same. */
  lemma {:induction false} MergePairsMonotone(m: Entries, short: seq<string>, keys: seq<string>, values: seq<string>)
    requires |values| <= |short| <= |keys| && short == keys[..|short|]
    ensures MergePairs(m, short, values) == MergePairs(m, keys, values)
    decreases |values|
  {
    if values != [] {
      MergePairsMonotone(m, short, keys, values[..|values| - 1]);
    }
  }

  /** Merging a chunk whose translations match its keys one for one sets each key to its value, later pairs winning. */
  lemma {:induction false} MergePairsExact(m: Entries, keys: seq<string>, values: seq<string>)
    requires |keys| == |values|
    ensures MergePairs(m, keys, values) == m + ToMap(Zip(keys, values))
    decreases |values|
  {
    if values != [] {
      var n := |values|;
      MergePairsMonotone(m, keys[..n - 1], keys, values[..n - 1]);
      MergePairsExact(m, keys[..n - 1], values[..n - 1]);
      assert Zip(keys, values)[..n - 1] == Zip(keys[..n - 1], values[..n - 1]);
    }
  }

  lemma {:induction false} FlattenLengths(a: seq<seq<string>>, b: seq<seq<string>>)
    requires |a| == |b|
    requires forall i :: 0 <= i < |a| ==> |a[i]| == |b[i]|
    ensures |Flatten(a)| == |Flatten(b)|
    decreases |a|
  {
    if a != [] {
      FlattenLengths(a[1..], b[1..]);
    }
  }

  /** Merging aligned chunks one after another merges the concatenated pairs. */
  lemma {:induction false} MergeChunksFlat(m: Entries, keyChunks: seq<seq<string>>, valueChunks: seq<seq<string>>)
    requires |keyChunks| == |valueChunks|
    requires forall i :: 0 <= i < |keyChunks| ==> |keyChunks[i]| == |valueChunks[i]|
    ensures |Flatten(keyChunks)| == |Flatten(valueChunks)|
    ensures MergeChunks(m, keyChunks, valueChunks) == m + ToMap(Zip(Flatten(keyChunks), Flatten(valueChunks)))
    decreases |keyChunks|
  {
    FlattenLengths(keyChunks, valueChunks);
    if keyChunks != [] {
      var k0, v0 := keyChunks[0], valueChunks[0];
      var ks, vs := keyChunks[1..], valueChunks[1..];
      var m1 := MergePairs(m, k0, v0);
      MergePairsExact(m, k0, v0);
      MergeChunksFlat(m1, ks, vs);
      var fk, fv := Flatten(ks), Flatten(vs);
      ZipAppend(k0, v0, fk, fv);
      ToMapAppend(Zip(k0, v0), Zip(fk, fv));
      calc {
        MergeChunks(m, keyChunks, valueChunks);
        MergeChunks(m1, ks, vs);
        m1 + ToMap(Zip(fk, fv));
        (m + ToMap(Zip(k0, v0))) + ToMap(Zip(fk, fv));
        { MapUnionAssoc(m, ToMap(Zip(k0, v0)), ToMap(Zip(fk, fv))); }
        m + (ToMap(Zip(k0, v0)) + ToMap(Zip(fk, fv)));
        m + ToMap(Zip(k0 + fk, v0 + fv));
      }
    }
  }

  /** Map union is associative (later maps win in both groupings). */
  lemma MapUnionAssoc(a: Entries, b: Entries, c: Entries)
    ensures (a + b) + c == a + (b + c)
  {
  }

  lemma ZipKeysValues(dict: Dict)
    ensures Zip(Keys(dict), Values(dict)) == dict
  {
  }

  /**
   * With translation on, and a translator that answers each chunk with one
   * translation per text, the `i`-th translation lands on the `i`-th key: the
   * file ends as its old map overwritten by the keys of the batch, each paired
   * with its text's translation.
   */
  lemma MergedWithTranslation(m: Entries, dict: Dict, translateBatch: (seq<string>, string) -> seq<string>, lang: string)
    requires forall t :: |translateBatch(t, lang)| == |t|
    ensures var tc := TranslatedChunks(Chunk(Values(dict), ChunkSize), true, translateBatch, lang);
      && (forall i :: 0 <= i < |tc| ==> tc[i] == translateBatch(Chunk(Values(dict), ChunkSize)[i], lang))
      && |Flatten(tc)| == |dict|
      && MergedEntries(m, dict, true, translateBatch, lang) == m + ToMap(Zip(Keys(dict), Flatten(tc)))
  {
    var keyChunks := Chunk(Keys(dict), ChunkSize);
    var textChunks := Chunk(Values(dict), ChunkSize);
    var tc := TranslatedChunks(textChunks, true, translateBatch, lang);
    ChunksAligned(Keys(dict), Values(dict), ChunkSize);
    MergeChunksFlat(m, keyChunks, tc);
    FlattenLengths(textChunks, tc);
  }

  /** With translation off, every file ends as its old map overwritten by every entry of the batch. */
  lemma MergedWithoutTranslation(m: Entries, dict: Dict, translateBatch: (seq<string>, string) -> seq<string>, lang: string)
    ensures MergedEntries(m, dict, false, translateBatch, lang) == m + ToMap(dict)
  {
    var keyChunks := Chunk(Keys(dict), ChunkSize);
    var textChunks := Chunk(Values(dict), ChunkSize);
    ChunksAligned(Keys(dict), Values(dict), ChunkSize);
    assert TranslatedChunks(textChunks, false, translateBatch, lang) == textChunks;
    MergeChunksFlat(m, keyChunks, textChunks);
    ZipKeysValues(dict);
  }

  /** A pair merge writes only its keys, and `"undefined"` for translations past the end of the chunk. */
  lemma {:induction false} MergePairsFrame(m: Entries, keys: seq<string>, values: seq<string>, k: string)
    requires k !in keys && k != "undefined"
    ensures (k in MergePairs(m, keys, values) <==> k in m)
    ensures k in m ==> MergePairs(m, keys, values)[k] == m[k]
    decreases |values|
  {
    if values != [] {
      MergePairsFrame(m, keys, values[..|values| - 1], k);
    }
  }

  lemma {:induction false} MergeChunksFrame(m: Entries, keyChunks: seq<seq<string>>, valueChunks: seq<seq<string>>, k: string)
    requires |keyChunks| == |valueChunks|
    requires k !in Flatten(keyChunks) && k != "undefined"
    ensures (k in MergeChunks(m, keyChunks, valueChunks) <==> k in m)
    ensures k in m ==> MergeChunks(m, keyChunks, valueChunks)[k] == m[k]
    decreases |keyChunks|
  {
    if keyChunks != [] {
      assert Flatten(keyChunks) == keyChunks[0] + Flatten(keyChunks[1..]);
      MergePairsFrame(m, keyChunks[0], valueChunks[0], k);
      MergeChunksFrame(MergePairs(m, keyChunks[0], valueChunks[0]), keyChunks[1..], valueChunks[1..], k);
    }
  }

  /** Translated or not, a key outside the batch (other than `"undefined"`) keeps its old value. */
  lemma MergedKeepsOtherKeys(m: Entries, dict: Dict, autoTranslate: bool,
                             translateBatch: (seq<string>, string) -> seq<string>, lang: string, k: string)
    requires k !in KeySet(dict) && k != "undefined"
    ensures (k in MergedEntries(m, dict, autoTranslate, translateBatch, lang) <==> k in m)
    ensures k in m ==> MergedEntries(m, dict, autoTranslate, translateBatch, lang)[k] == m[k]
  {
    var keyChunks := Chunk(Keys(dict), ChunkSize);
    ChunksAligned(Keys(dict), Values(dict), ChunkSize);
    assert k !in Keys(dict);
    MergeChunksFrame(m, keyChunks, TranslatedChunks(Chunk(Values(dict), ChunkSize), autoTranslate, translateBatch, lang), k);
  }

  /** The `forEach` over one chunk's translations. */
  method MergeChunk(arbJson: Entries, keys: seq<string>, translations: seq<string>) returns (r: Entries)
    ensures r == MergePairs(arbJson, keys, translations)
  {
    r := arbJson;
    var idx := 0;
    while idx < |translations|
      invariant 0 <= idx <= |translations|
      invariant r == MergePairs(arbJson, keys, translations[..idx])
    {
      assert translations[..idx + 1][..idx] == translations[..idx];
      r := r[KeyAt(keys, idx) := translations[idx]];
      idx := idx + 1;
    }
    assert translations[..idx] == translations;
  }

  /** The chunk loop for one file: 50 keys at a time, keys and texts cut at the same places. */
  method MergeIntoFile(arbJson: Entries, dict: Dict, autoTranslate: bool,
                       translateBatch: (seq<string>, string) -> seq<string>, lang: string) returns (r: Entries)
    ensures r == MergedEntries(arbJson, dict, autoTranslate, translateBatch, lang)
  {
    var keys := Keys(dict);
    var texts := Values(dict);
    var keyChunks := Chunk(keys, ChunkSize);
    var textChunks := Chunk(texts, ChunkSize);
    ChunksAligned(keys, texts, ChunkSize);
    ghost var translated := TranslatedChunks(textChunks, autoTranslate, translateBatch, lang);
    r := arbJson;
    var c := 0;
    while c < |keyChunks|
      invariant 0 <= c <= |keyChunks|
      invariant MergeChunks(arbJson, keyChunks, translated) == MergeChunks(r, keyChunks[c..], translated[c..])
    {
      var translations := if autoTranslate then translateBatch(textChunks[c], lang) else textChunks[c];
      assert translations == translated[c];
      assert keyChunks[c..][1..] == keyChunks[c + 1..];
      assert translated[c..][1..] == translated[c + 1..];
      assert MergeChunks(r, keyChunks[c..], translated[c..])
          == MergeChunks(MergePairs(r, keyChunks[c], translated[c]), keyChunks[c + 1..], translated[c + 1..]);
      r := MergeChunk(r, keyChunks[c], translations);
      c := c + 1;
    }
  }

  /**
   * The file loop inside the `try` of `updateArbFilesBatch`: read and parse
   * each file, take its language code, merge the batch in and write the file;
   * the first failure ends the loop with false.
   */
  method BatchFiles(d: Disk, arbFiles: seq<string>, dict: Dict, autoTranslate: bool,
                    translateBatch: (seq<string>, string) -> seq<string>) returns (ok: bool, d': Disk)
    ensures (ok, d') == BatchFrom(d, arbFiles, dict, autoTranslate, translateBatch)
  {
    d' := d;
    ok := true;
    var i := 0;
    while i < |arbFiles| && ok
      invariant 0 <= i <= |arbFiles|
      invariant !ok ==> BatchFrom(d, arbFiles, dict, autoTranslate, translateBatch) == (false, d')
      invariant ok ==> (BatchFrom(d, arbFiles, dict, autoTranslate, translateBatch)
                     == BatchFrom(d', arbFiles[i..], dict, autoTranslate, translateBatch))
      decreases |arbFiles| - i, if ok then 1 else 0
    {
      var arbFile := arbFiles[i];
      assert arbFiles[i..][1..] == arbFiles[i + 1..];
      var targetLang := LangCode(arbFile);
      if !Parses(d', arbFile) || targetLang.None? {
        ok := false;
      } else {
        var arbJson := MergeIntoFile(Read(d', arbFile), dict, autoTranslate, translateBatch, targetLang.value);
        if !Writable(d', arbFile) {
          ok := false;
        } else {
          d' := Write(d', arbFile, arbJson);
          i := i + 1;
        }
      }
    }
    if ok {
      assert arbFiles[i..] == [];
    }
  }

  /**
   * `updateArbFilesBatch(keyValues)`: list the directory, then for each `.arb`
   * file read and parse it, take its language code, merge the batch in, and
   * write the file once. Any exception makes the result false.
   */
  method UpdateArbFilesBatch(d: Disk, dict: Dict, autoTranslate: bool,
                             translateBatch: (seq<string>, string) -> seq<string>) returns (ok: bool, d': Disk)
    ensures (ok, d') == BatchAfter(d, dict, autoTranslate, translateBatch)
    ensures ValidDisk(d) ==> (ok <==> d.listable && forall n :: n in ArbNames(d.listing) ==> BatchGood(d, n))
    ensures forall n :: n !in ArbNames(d.listing) ==> Lookup(d', n) == Lookup(d, n)
  {
    if !d.listable {
      return false, d;
    }
    var arbFiles := ArbNames(d.listing);
    ok, d' := BatchFiles(d, arbFiles, dict, autoTranslate, translateBatch);
    BatchFrame(d, arbFiles, dict, autoTranslate, translateBatch);
    if ValidDisk(d) {
      BatchOutcome(d, arbFiles, dict, autoTranslate, translateBatch);
    }
  }

  /**
   * With translation off, each `.arb` file the batch reaches ends as its old
   * map with every entry of the batch written over it.
   */
  lemma BatchWithoutTranslation(d: Disk, dict: Dict, translateBatch: (seq<string>, string) -> seq<string>, i: nat)
    requires ValidDisk(d) && d.listable && i < |ArbNames(d.listing)|
    requires BatchPrefixGood(d, ArbNames(d.listing), i)
    ensures var name := ArbNames(d.listing)[i];
      Lookup(BatchAfter(d, dict, false, translateBatch).1, name) == Some(Parsed(Read(d, name) + ToMap(dict)))
  {
    var names := ArbNames(d.listing);
    BatchWrites(d, names, dict, false, translateBatch, i);
    MergedWithoutTranslation(Read(d, names[i]), dict, translateBatch, LangCode(names[i]).value);
  }

  /**
   * With translation on and a length-preserving translator, each `.arb` file
   * the batch reaches ends as its old map with every key of the batch set to
   * the translation of its text into the file's language.
   */
  lemma BatchWithTranslation(d: Disk, dict: Dict, translateBatch: (seq<string>, string) -> seq<string>, i: nat)
    requires ValidDisk(d) && d.listable && i < |ArbNames(d.listing)|
    requires BatchPrefixGood(d, ArbNames(d.listing), i)
    requires forall t, lang :: |translateBatch(t, lang)| == |t|
    ensures var name := ArbNames(d.listing)[i];
      var lang := LangCode(name).value;
      var tc := TranslatedChunks(Chunk(Values(dict), ChunkSize), true, translateBatch, lang);
      && |Flatten(tc)| == |dict|
      && Lookup(BatchAfter(d, dict, true, translateBatch).1, name)
        == Some(Parsed(Read(d, name) + ToMap(Zip(Keys(dict), Flatten(tc)))))
  {
    var names := ArbNames(d.listing);
    BatchWrites(d, names, dict, true, translateBatch, i);
    MergedWithTranslation(Read(d, names[i]), dict, translateBatch, LangCode(names[i]).value);
  }
}
