/**
  The chunk dict that `main` of utils/read.py builds from getFiles' list,
  and the request that list turns into.
*/
module Pipeline {
  import opened Wrappers
  import opened Text
  import opened Sorting
  import opened Chunker
  import opened FileSelector
  import opened MessageBuilder

  /** The keys of a chunk dict, in insertion order. */
  function Keys(cm: ChunkMap): seq<string> {
    if cm == [] then [] else Keys(cm[..|cm| - 1]) + [cm[|cm| - 1].path]
  }

  predicate Distinct(s: seq<string>) {
    forall i, j :: 0 <= i < j < |s| ==> s[i] != s[j]
  }

  /** `d[key]`, or None when `key` is not in the dict. */
  function Get(cm: ChunkMap, key: string): Option<seq<string>> {
    if cm == [] then None
    else if cm[|cm| - 1].path == key then Some(cm[|cm| - 1].chunks)
    else Get(cm[..|cm| - 1], key)
  }

  /** There is one key per entry, the entry's path. */
  lemma {:induction false} KeysLength(cm: ChunkMap)
    ensures |Keys(cm)| == |cm|
    ensures forall i :: 0 <= i < |cm| ==> Keys(cm)[i] == cm[i].path
  {
    if cm != [] {
      KeysLength(cm[..|cm| - 1]);
    }
  }

  /** A key has a value exactly when it is one of the keys. */
  lemma {:induction false} GetSome(cm: ChunkMap, key: string)
    ensures Get(cm, key).Some? <==> key in Keys(cm)
  {
    if cm != [] {
      GetSome(cm[..|cm| - 1], key);
    }
  }

  /**
    `d[key] = value`: a key already in the dict keeps its place and takes the
    new value; a new key goes at the end.
  */
  function Put(cm: ChunkMap, key: string, value: seq<string>): ChunkMap {
    if cm == [] then [FileChunks(key, value)]
    else
      var init, last := cm[..|cm| - 1], cm[|cm| - 1];
      if key in Keys(init) then Put(init, key, value) + [last]
      else if last.path == key then init + [FileChunks(key, value)]
      else cm + [FileChunks(key, value)]
  }

  /**
    Assignment keeps the keys distinct, adds the key at the end exactly when
    it was missing, makes `value` the key's value and leaves every other
    key's value alone.
  */
  lemma PutSpec(cm: ChunkMap, key: string, value: seq<string>)
    requires Distinct(Keys(cm))
    ensures var r := Put(cm, key, value);
      Distinct(Keys(r))
      && (key in Keys(cm) ==> Keys(r) == Keys(cm))
      && (key !in Keys(cm) ==> Keys(r) == Keys(cm) + [key])
      && Get(r, key) == Some(value)
      && forall k :: k != key ==> Get(r, k) == Get(cm, k)
  {
    PutKeys(cm, key, value);
    PutGet(cm, key, value);
    var r := Put(cm, key, value);
    if key !in Keys(cm) {
      assert Distinct(Keys(r)) by {
        forall i, j | 0 <= i < j < |Keys(r)| ensures Keys(r)[i] != Keys(r)[j] {
          if j == |Keys(cm)| { assert Keys(r)[i] == Keys(cm)[i]; }
        }
      }
    }
  }

  /** The keys after an assignment: unchanged if the key was there, one more at the end if not. */
  lemma {:induction false} PutKeys(cm: ChunkMap, key: string, value: seq<string>)
    ensures key in Keys(cm) ==> Keys(Put(cm, key, value)) == Keys(cm)
    ensures key !in Keys(cm) ==> Keys(Put(cm, key, value)) == Keys(cm) + [key]
  {
    if cm != [] {
      var init, last := cm[..|cm| - 1], cm[|cm| - 1];
      var r := Put(cm, key, value);
      assert Keys(cm) == Keys(init) + [last.path];
      if key in Keys(init) {
        PutKeys(init, key, value);
        var p := Put(init, key, value);
        assert r == p + [last] && r[..|r| - 1] == p;
      } else if last.path == key {
        assert r[..|r| - 1] == init;
      } else {
        assert r[..|r| - 1] == cm;
      }
    }
  }

  /** After an assignment the key reads back `value` and every other key reads what it read before. */
  lemma {:induction false} PutGet(cm: ChunkMap, key: string, value: seq<string>)
    requires Distinct(Keys(cm))
    ensures Get(Put(cm, key, value), key) == Some(value)
    ensures forall k :: k != key ==> Get(Put(cm, key, value), k) == Get(cm, k)
  {
    if cm != [] {
      var init, last := cm[..|cm| - 1], cm[|cm| - 1];
      var r := Put(cm, key, value);
      assert Keys(cm) == Keys(init) + [last.path];
      assert Distinct(Keys(init)) by {
        forall i, j | 0 <= i < j < |Keys(init)| ensures Keys(init)[i] != Keys(init)[j] {
          assert Keys(init)[i] == Keys(cm)[i] && Keys(init)[j] == Keys(cm)[j];
        }
      }
      if key in Keys(init) {
        assert last.path != key by {
          var i :| 0 <= i < |Keys(init)| && Keys(init)[i] == key;
          assert Keys(cm)[i] == key && Keys(cm)[|Keys(init)|] == last.path;
        }
        PutGet(init, key, value);
        var p := Put(init, key, value);
        assert r == p + [last] && r[..|r| - 1] == p;
      } else if last.path == key {
        assert r[..|r| - 1] == init;
      } else {
        assert r[..|r| - 1] == cm;
      }
    }
  }

  /** The list without its repetitions, each element where it first occurs. */
  function Dedup(s: seq<string>): seq<string> {
    if s == [] then []
    else
      var d := Dedup(s[..|s| - 1]);
      if s[|s| - 1] in d then d else d + [s[|s| - 1]]
  }

  /** Dedup keeps every element once and nothing else, and keeps a sorted list sorted. */
  lemma DedupSpec(s: seq<string>)
    ensures Distinct(Dedup(s))
    ensures forall x :: x in Dedup(s) <==> x in s
    ensures Sorted(s) ==> Sorted(Dedup(s))
  {
    DedupDistinct(s);
    DedupElements(s);
    if Sorted(s) {
      DedupSorted(s);
    }
  }

  /** Dedup drops nothing but repetitions. */
  lemma {:induction false} DedupElements(s: seq<string>)
    ensures forall x :: x in Dedup(s) <==> x in s
  {
    if s != [] {
      var init, x := s[..|s| - 1], s[|s| - 1];
      DedupElements(init);
      assert s == init + [x];
    }
  }

  /** Dedup leaves no repetition. */
  lemma {:induction false} DedupDistinct(s: seq<string>)
    ensures Distinct(Dedup(s))
  {
    if s != [] {
      var init, x := s[..|s| - 1], s[|s| - 1];
      DedupDistinct(init);
      var d := Dedup(init);
      if x !in d {
        var r := d + [x];
        forall i, j | 0 <= i < j < |r| ensures r[i] != r[j] {
          if j == |d| { assert r[i] == d[i]; }
        }
      }
    }
  }

  /** Dedup keeps a sorted list sorted. */
  lemma {:induction false} DedupSorted(s: seq<string>)
    requires Sorted(s)
    ensures Sorted(Dedup(s))
  {
    if s != [] {
      var init, x := s[..|s| - 1], s[|s| - 1];
      assert Sorted(init) by {
        forall a, b | 0 <= a < b < |init| ensures Le(init[a], init[b]) {
          assert init[a] == s[a] && init[b] == s[b];
        }
      }
      DedupSorted(init);
      var d := Dedup(init);
      if x !in d {
        DedupElements(init);
        var r := d + [x];
        forall i, j | 0 <= i < j < |r| ensures Le(r[i], r[j]) {
          if j == |d| {
            assert r[i] in init;
            var k :| 0 <= k < |init| && init[k] == r[i];
            assert s[k] == r[i];
          } else {
            assert r[i] == d[i] && r[j] == d[j];
          }
        }
      }
    }
  }

  /**
    The dict the loop `for filepath in files: chunks[filepath] =
    chunk(filepath)` leaves, or the first path whose file cannot be opened.
    `read` stands for opening and decoding a file: None when open raises.
  */
  function ChunkMapOf(files: seq<string>, read: string -> Option<string>): Result<ChunkMap, string> {
    if files == [] then Success([])
    else
      var path := files[|files| - 1];
      match ChunkMapOf(files[..|files| - 1], read)
      case Failure(e) => Failure(e)
      case Success(cm) =>
        match read(path)
        case None => Failure(path)
        case Some(data) => Success(Put(cm, path, Chunk(data)))
  }

  /** The loop finishes exactly when every file can be opened. */
  lemma ChunkMapSucceeds(files: seq<string>, read: string -> Option<string>)
    ensures ChunkMapOf(files, read).Success? <==> forall i :: 0 <= i < |files| ==> read(files[i]).Some?
  {
    if ChunkMapOf(files, read).Success? {
      forall i | 0 <= i < |files| ensures read(files[i]).Some? {
        SuccessReadsAll(files, read, i);
      }
    } else {
      ChunkMapFails(files, read);
    }
  }

  /** A finished loop opened every file of the list. */
  lemma {:induction false} SuccessReadsAll(files: seq<string>, read: string -> Option<string>, i: nat)
    requires ChunkMapOf(files, read).Success? && i < |files|
    ensures read(files[i]).Some?
  {
    var init := files[..|files| - 1];
    assert ChunkMapOf(init, read).Success? && read(files[|files| - 1]).Some?;
    if i < |init| {
      assert init[i] == files[i];
      SuccessReadsAll(init, read, i);
    }
  }

  /** When the loop stops, it stops at the first file that cannot be opened. */
  lemma {:induction false} ChunkMapFails(files: seq<string>, read: string -> Option<string>)
    requires ChunkMapOf(files, read).Failure?
    ensures exists i :: (0 <= i < |files| && files[i] == ChunkMapOf(files, read).error
      && read(files[i]).None? && forall j :: 0 <= j < i ==> read(files[j]).Some?)
  {
    var init := files[..|files| - 1];
    var e := ChunkMapOf(files, read).error;
    if ChunkMapOf(init, read).Failure? {
      ChunkMapFails(init, read);
      var i :| 0 <= i < |init| && init[i] == e
        && read(init[i]).None? && forall j :: 0 <= j < i ==> read(init[j]).Some?;
      assert files[i] == init[i];
      assert forall j :: 0 <= j < i ==> files[j] == init[j];
    } else {
      var i := |files| - 1;
      forall j | 0 <= j < i ensures read(files[j]).Some? {
        SuccessReadsAll(init, read, j);
        assert files[j] == init[j];
      }
      assert files[i] == e;
    }
  }

  /**
    A finished dict has each listed path once as a key, in order of first
    occurrence, and each key's value is the chunking of that file's contents.
  */
  lemma {:induction false} ChunkMapEntries(files: seq<string>, read: string -> Option<string>)
    requires ChunkMapOf(files, read).Success?
    ensures var cm := ChunkMapOf(files, read).value;
      Keys(cm) == Dedup(files) && Distinct(Keys(cm))
      && forall k :: k in files ==>
           read(k).Some? && Get(cm, k) == Some(Chunk(read(k).value))
  {
    if files != [] {
      var init, path := files[..|files| - 1], files[|files| - 1];
      var prior := ChunkMapOf(init, read);
      assert prior.Success? && read(path).Some?;
      var data := read(path).value;
      var cm0 := prior.value;
      var cm := Put(cm0, path, Chunk(data));
      assert ChunkMapOf(files, read) == Success(cm);
      ChunkMapEntries(init, read);
      PutSpec(cm0, path, Chunk(data));
      forall k | k in files ensures read(k).Some? && Get(cm, k) == Some(Chunk(read(k).value)) {
        if k != path {
          assert k in init;
        }
      }
    }
  }

  /** `chunks = {}; for filepath in files: chunks[filepath] = chunk(filepath)` */
  method BuildChunkMap(files: seq<string>, read: string -> Option<string>) returns (r: Result<ChunkMap, string>)
    ensures r == ChunkMapOf(files, read)
  {
    var chunks: ChunkMap := [];
    for i := 0 to |files|
      invariant ChunkMapOf(files[..i], read) == Success(chunks)
    {
      var filepath := files[i];
      assert files[..i + 1][..i] == files[..i];
      match read(filepath) {
        case None =>
          FailureStays(files, read, i + 1);
          return Failure(filepath);
        case Some(data) =>
          chunks := Put(chunks, filepath, Chunk(data));
      }
    }
    assert files[..|files|] == files;
    r := Success(chunks);
  }

  /** Once a prefix of the list fails, the whole list fails the same way. */
  lemma {:induction false} FailureStays(files: seq<string>, read: string -> Option<string>, n: nat)
    requires n <= |files|
    requires ChunkMapOf(files[..n], read).Failure?
    ensures ChunkMapOf(files, read) == ChunkMapOf(files[..n], read)
    decreases |files| - n
  {
    if n < |files| {
      assert files[..n + 1][..n] == files[..n];
      FailureStays(files, read, n + 1);
    } else {
      assert files[..n] == files;
    }
  }

  /**
    What `main` sends: the request for the sorted text files of `paths`, or
    the first of them that cannot be opened.
  */
  function Request(probes: Probes, fs: FileSystem, paths: seq<string>, read: string -> Option<string>,
                   instruction: string, prompt: string): Result<seq<Message>, string>
  {
    match ChunkMapOf(Sort(Collected(TextTest(probes), fs, paths)), read)
    case Failure(e) => Failure(e)
    case Success(cm) => Success(Messages(instruction, prompt, cm))
  }

  /** The body of `main` from getFiles to buildMessage. */
  method BuildRequest(probes: Probes, fs: FileSystem, paths: seq<string>, read: string -> Option<string>,
                      instruction: string, prompt: string) returns (r: Result<seq<Message>, string>)
    ensures r == Request(probes, fs, paths, read, instruction, prompt)
  {
    var files := GetFiles(probes, fs, paths);
    SortedUnique(files, Sort(Collected(TextTest(probes), fs, paths)));
    var chunks := BuildChunkMap(files, read);
    match chunks {
      case Failure(e) =>
        r := Failure(e);
      case Success(cm) =>
        var messages := BuildMessage(instruction, prompt, cm);
        r := Success(messages);
    }
  }

  /**
    A successful request holds one dict entry per text file found, each once
    although getFiles may list a file twice, in sorted order, each carrying
    the chunks of that file's whole contents; the messages are the two
    system messages, one per chunk, and the prompt.
  */
  lemma RequestEntries(probes: Probes, fs: FileSystem, paths: seq<string>, read: string -> Option<string>,
                       instruction: string, prompt: string)
    requires Request(probes, fs, paths, read, instruction, prompt).Success?
    ensures var files := Sort(Collected(TextTest(probes), fs, paths));
      var cm := ChunkMapOf(files, read).value;
      Sorted(Keys(cm)) && Distinct(Keys(cm))
      && (forall x :: x in Keys(cm) <==> x in Collected(TextTest(probes), fs, paths))
      && (forall x :: x in Keys(cm) ==> read(x).Some? && Get(cm, x) == Some(Chunk(read(x).value)))
      && Request(probes, fs, paths, read, instruction, prompt).value == Messages(instruction, prompt, cm)
  {
    var files := Sort(Collected(TextTest(probes), fs, paths));
    ChunkMapEntries(files, read);
    DedupSpec(files);
    assert forall x :: x in files <==> x in Collected(TextTest(probes), fs, paths) by {
      forall x ensures x in files <==> x in Collected(TextTest(probes), fs, paths) {
        assert x in files <==> x in multiset(files);
      }
    }
  }
}
