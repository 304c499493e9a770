/** `buildMessage(instruction, prompt, chunks)` of utils/read.py. */
module MessageBuilder {
  import opened Wrappers
  import opened Text
  import opened Seqs

  datatype Role = System | User

  /** One `{"role": ..., "content": ...}` entry of the request. */
  datatype Message = Message(role: Role, content: string)

  /**
    One entry of the chunk dict: a file path and its chunks. A Python dict
    iterates in insertion order, so the dict is the sequence of its entries.
  */
  datatype FileChunks = FileChunks(path: string, chunks: seq<string>)
  type ChunkMap = seq<FileChunks>

  /** The fixed pieces of the user messages. */
  const FILE_PREFIX: string := "File: "
  const FENCE_OPEN: string := "\n```\n"
  const FENCE_CLOSE: string := "\n```"
  const TAG_OPEN: string := " [chunk "
  const TAG_SEP: string := "/"
  const TAG_CLOSE: string := "]"
  const PROMPT_PREFIX: string := "User prompt: "

  /** The fixed second system message. */
  const GUARDRAIL: string := "Only answer based on the provided file contents; do not guess or bring in outside info."

  /** The label of chunk `idx` of a file with `n` chunks: the path, tagged with its position only when n > 1. */
  function Label(path: string, idx: nat, n: nat): string {
    if n > 1 then path + ChunkTag(idx, n) else path
  }

  /** `" [chunk {idx+1}/{n}]"` */
  function ChunkTag(idx: nat, n: nat): string {
    TAG_OPEN + Decimal(idx + 1) + TAG_SEP + Decimal(n) + TAG_CLOSE
  }

  /** The user message carrying chunk `idx` of a file with `n` chunks. */
  function ChunkMessage(path: string, idx: nat, n: nat, chunk: string): Message {
    Message(User, FILE_PREFIX + Label(path, idx, n) + FENCE_OPEN + chunk + FENCE_CLOSE)
  }

  /** The messages for the chunks of one file: one per chunk, in chunk order. */
  function FileMessages(fc: FileChunks): (r: seq<Message>)
    ensures |r| == |fc.chunks|
  {
    seq(|fc.chunks|, i requires 0 <= i < |fc.chunks| => ChunkMessage(fc.path, i, |fc.chunks|, fc.chunks[i]))
  }

  /** The chunk count summed over the entries. */
  function TotalChunks(cm: ChunkMap): nat {
    if cm == [] then 0 else TotalChunks(cm[..|cm| - 1]) + |cm[|cm| - 1].chunks|
  }

  /** The messages for all chunks: entry after entry in dict order, each in chunk order. */
  function ChunkMessages(cm: ChunkMap): (r: seq<Message>)
    ensures |r| == TotalChunks(cm)
  {
    if cm == [] then []
    else
      var last := cm[|cm| - 1];
      ChunkMessages(cm[..|cm| - 1]) + FileMessages(last)
  }

  /** The message list buildMessage returns. */
  function Messages(instruction: string, prompt: string, cm: ChunkMap): seq<Message> {
    [Message(System, Strip(instruction)), Message(System, GUARDRAIL)]
    + ChunkMessages(cm)
    + [Message(User, PROMPT_PREFIX + Strip(prompt))]
  }

  /** Where chunk `idx` of entry `j` lands among the chunk messages: after every chunk of the earlier entries. */
  lemma {:induction false} ChunkMessageAt(cm: ChunkMap, j: nat, idx: nat)
    requires j < |cm| && idx < |cm[j].chunks|
    ensures TotalChunks(cm[..j]) + idx < TotalChunks(cm)
    ensures ChunkMessages(cm)[TotalChunks(cm[..j]) + idx]
      == ChunkMessage(cm[j].path, idx, |cm[j].chunks|, cm[j].chunks[idx])
  {
    var init := cm[..|cm| - 1];
    if j == |cm| - 1 {
      assert cm[..j] == init;
    } else {
      assert init[j] == cm[j];
      assert init[..j] == cm[..j];
      ChunkMessageAt(init, j, idx);
    }
  }

  /** Chunk `idx` of entry `j` is message 2 + (chunks of the entries before j) + idx of the request. */
  lemma MessageAt(instruction: string, prompt: string, cm: ChunkMap, j: nat, idx: nat)
    requires j < |cm| && idx < |cm[j].chunks|
    ensures 2 + TotalChunks(cm[..j]) + idx < |Messages(instruction, prompt, cm)| - 1
    ensures Messages(instruction, prompt, cm)[2 + TotalChunks(cm[..j]) + idx]
      == ChunkMessage(cm[j].path, idx, |cm[j].chunks|, cm[j].chunks[idx])
  {
    ChunkMessageAt(cm, j, idx);
    var o := TotalChunks(cm[..j]) + idx;
    var system := [Message(System, Strip(instruction)), Message(System, GUARDRAIL)];
    var user := [Message(User, PROMPT_PREFIX + Strip(prompt))];
    var body := ChunkMessages(cm);
    assert Messages(instruction, prompt, cm) == system + body + user;
    assert (system + body + user)[2 + o] == body[o];
  }

  /**
    The shape of the request: the stripped instruction, the guardrail, one
    user message per chunk (entry order, then chunk order, as MessageAt
    places them) and the stripped prompt last, 3 + (total chunk count)
    messages in all.
  */
  lemma MessagesShape(instruction: string, prompt: string, cm: ChunkMap)
    ensures var r := Messages(instruction, prompt, cm);
      |r| == 3 + TotalChunks(cm)
      && r[0] == Message(System, Strip(instruction))
      && r[1] == Message(System, GUARDRAIL)
      && r[|r| - 1] == Message(User, PROMPT_PREFIX + Strip(prompt))
  {
  }

  /** The position of the first `c` in `s`, if any. */
  function IndexOf(s: string, c: char): (r: Option<nat>)
    ensures r.Some? ==> r.value < |s| && s[r.value] == c && forall k :: 0 <= k < r.value ==> s[k] != c
    ensures r.None? ==> forall k :: 0 <= k < |s| ==> s[k] != c
  {
    if s == [] then None
    else if s[0] == c then Some(0)
    else match IndexOf(s[1..], c)
      case None => None
      case Some(i) => Some(i + 1)
  }

  predicate AllDigits(s: string) {
    forall k :: 0 <= k < |s| ==> '0' <= s[k] <= '9'
  }

  /** Reads `" [chunk a/b]"` back into (a, b). */
  function ParseChunkTag(t: string): Option<(nat, nat)> {
    var head := TAG_OPEN;
    if |t| < |head| + 1 || t[..|head|] != head || t[|t| - 1] != ']' then None
    else
      var body := t[|head|..|t| - 1];
      match IndexOf(body, '/')
      case None => None
      case Some(i) =>
        var a, b := body[..i], body[i + 1..];
        if a != [] && b != [] && AllDigits(a) && AllDigits(b) && ParseDecimal(a) >= 0 && ParseDecimal(b) >= 0
        then Some((ParseDecimal(a), ParseDecimal(b)))
        else None
  }

  /** In a digit string followed by "/", the first "/" is the one after the digits. */
  lemma FirstSlashAfterDigits(a: string, b: string)
    requires AllDigits(a)
    ensures IndexOf(a + TAG_SEP + b, '/') == Some(|a|)
  {
    var s := a + TAG_SEP + b;
    assert s[|a|] == '/';
    assert forall k :: 0 <= k < |a| ==> s[k] == a[k];
  }

  /** A tag built from two digit strings reads back as their values. */
  lemma ParseTagOf(da: string, db: string)
    requires da != [] && db != [] && AllDigits(da) && AllDigits(db)
    requires ParseDecimal(da) >= 0 && ParseDecimal(db) >= 0
    ensures ParseChunkTag(TAG_OPEN + da + TAG_SEP + db + TAG_CLOSE) == Some((ParseDecimal(da), ParseDecimal(db)))
  {
    var t, head := TAG_OPEN + da + TAG_SEP + db + TAG_CLOSE, TAG_OPEN;
    var body := da + TAG_SEP + db;
    assert t == head + body + TAG_CLOSE;
    assert t[..|head|] == head;
    assert t[|t| - 1] == ']';
    assert t[|head|..|t| - 1] == body;
    FirstSlashAfterDigits(da, db);
    assert body[..|da|] == da;
    assert body[|da| + 1..] == db;
  }

  /** The tag of chunk `idx` of `n` reads back as (idx + 1, n). */
  lemma ChunkTagRoundTrip(idx: nat, n: nat)
    ensures ParseChunkTag(ChunkTag(idx, n)) == Some((idx + 1, n))
  {
    var da, db := Decimal(idx + 1), Decimal(n);
    DecimalDigits(idx + 1);
    DecimalDigits(n);
    DecimalRoundTrip(idx + 1);
    DecimalRoundTrip(n);
    ParseTagOf(da, db);
  }

  /**
    A label starts with the file path; it carries a tag exactly when the
    file has more than one chunk, and the tag gives back the 1-based chunk
    number and the chunk count.
  */
  lemma LabelTagged(path: string, idx: nat, n: nat)
    ensures var l := Label(path, idx, n);
      |path| <= |l| && l[..|path|] == path
    ensures Label(path, idx, n) == path <==> n <= 1
    ensures n > 1 ==> ParseChunkTag(Label(path, idx, n)[|path|..]) == Some((idx + 1, n))
  {
    if n > 1 {
      var l := Label(path, idx, n);
      assert l[|path|..] == ChunkTag(idx, n);
      assert |l| > |path|;
      ChunkTagRoundTrip(idx, n);
    }
  }

  /** A file with one chunk is labelled by its path alone. */
  lemma SingleChunkExample()
    ensures ChunkMessage("a.txt", 0, 1, "x") == Message(User, "File: a.txt\n```\nx\n```")
  {
    assert Label("a.txt", 0, 1) == "a.txt";
  }

  /** The tags of the two chunks of a two-chunk file. */
  lemma TagExample()
    ensures ChunkTag(0, 2) == " [chunk 1/2]" && ChunkTag(1, 2) == " [chunk 2/2]"
  {
    assert Decimal(1) == "1" && Decimal(2) == "2";
  }

  /** The labels of the two chunks of a two-chunk file. */
  lemma TwoChunkLabels()
    ensures Label("a.txt", 0, 2) == "a.txt [chunk 1/2]"
    ensures Label("a.txt", 1, 2) == "a.txt [chunk 2/2]"
  {
    TagExample();
  }

  /** The message for the first chunk of a two-chunk file. */
  lemma FirstOfTwoExample()
    ensures ChunkMessage("a.txt", 0, 2, "x") == Message(User, "File: a.txt [chunk 1/2]\n```\nx\n```")
  {
    TwoChunkLabels();
  }

  /** The message for the second chunk of a two-chunk file. */
  lemma SecondOfTwoExample()
    ensures ChunkMessage("a.txt", 1, 2, "y") == Message(User, "File: a.txt [chunk 2/2]\n```\ny\n```")
  {
    TwoChunkLabels();
  }

  /** A one-chunk file is labelled by its path alone; a two-chunk file gets "[chunk 1/2]" and "[chunk 2/2]". */
  lemma LabelExamples()
    ensures Messages("", "", [FileChunks("a.txt", ["x"])])[2]
      == Message(User, "File: a.txt\n```\nx\n```")
    ensures Messages("", "", [FileChunks("a.txt", ["x", "y"])])[2]
      == Message(User, "File: a.txt [chunk 1/2]\n```\nx\n```")
    ensures Messages("", "", [FileChunks("a.txt", ["x", "y"])])[3]
      == Message(User, "File: a.txt [chunk 2/2]\n```\ny\n```")
  {
    var one := [FileChunks("a.txt", ["x"])];
    var two := [FileChunks("a.txt", ["x", "y"])];
    assert one[..0] == [] && two[..0] == [];
    MessageAt("", "", one, 0, 0);
    MessageAt("", "", two, 0, 0);
    MessageAt("", "", two, 0, 1);
    SingleChunkExample();
    FirstOfTwoExample();
    SecondOfTwoExample();
  }

  /**
    `buildMessage`: the two system messages, then for each entry of the
    dict and each of its chunks a user message, then the prompt.
  */
  method BuildMessage(instruction: string, prompt: string, chunks: ChunkMap) returns (messages: seq<Message>)
    ensures messages == Messages(instruction, prompt, chunks)
  {
    messages := [Message(System, Strip(instruction)), Message(System, GUARDRAIL)];
    ghost var system := messages;
    for j := 0 to |chunks|
      invariant messages == system + ChunkMessages(chunks[..j])
    {
      var added := EntryMessages(chunks[j].path, chunks[j].chunks);
      ChunkMessagesStep(chunks, j);
      AppendAssoc(system, ChunkMessages(chunks[..j]), added);
      messages := messages + added;
    }
    assert chunks[..|chunks|] == chunks;
    messages := messages + [Message(User, PROMPT_PREFIX + Strip(prompt))];
  }

  /** One more entry adds that entry's messages at the end. */
  lemma ChunkMessagesStep(cm: ChunkMap, j: nat)
    requires j < |cm|
    ensures ChunkMessages(cm[..j + 1]) == ChunkMessages(cm[..j]) + FileMessages(cm[j])
  {
    assert cm[..j + 1][..j] == cm[..j];
  }

  /**
    The inner loop of buildMessage over one entry. In the source the loop
    variable `chunks` shadows the parameter, so the count in the label is
    this entry's own chunk count.
  */
  method EntryMessages(filepath: string, chunks: seq<string>) returns (messages: seq<Message>)
    ensures messages == FileMessages(FileChunks(filepath, chunks))
  {
    ghost var all := FileMessages(FileChunks(filepath, chunks));
    messages := [];
    for idx := 0 to |chunks|
      invariant messages == all[..idx]
    {
      var fileLabel := filepath;
      if |chunks| > 1 {
        fileLabel := fileLabel + (TAG_OPEN + Decimal(idx + 1) + TAG_SEP + Decimal(|chunks|) + TAG_CLOSE);
      }
      assert fileLabel == Label(filepath, idx, |chunks|);
      TakeStep(all, idx);
      messages := messages + [Message(User, FILE_PREFIX + fileLabel + FENCE_OPEN + chunks[idx] + FENCE_CLOSE)];
    }
    assert all[..|chunks|] == all;
  }
}
