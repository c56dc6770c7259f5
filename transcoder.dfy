/**
 * The line transcoder of the plugin (`encryptFile`): every line of a
 * properties file is copied, or split into key and value with the value
 * either kept or replaced by `ENC(<ciphertext>)`.
 *
 * The encryptor is the parameter `enc`, an arbitrary function from plaintext
 * to ciphertext.
 */
module Transcoder {
  import opened JavaString

  /** The terminator `BufferedWriter.newLine()` writes after every line. */
  const NewLine: char := '\n'

  /** The three kinds of line the transcoder tells apart. */
  datatype ConfigLine =
    | Comment(text: string)
    | Plain(text: string)
    | KeyValue(key: string, value: string)

  /**
   * A line is a comment when its raw text starts with `#`, and plain when it
   * has no `=`; otherwise it splits at its first `=` into a trimmed key and a
   * trimmed value, the value keeping every later `=`.
   */
  function ParseLine(line: string): (c: ConfigLine)
    ensures c.Comment? <==> StartsWith(line, "#")
    ensures c.Plain? <==> !StartsWith(line, "#") && '=' !in line
    ensures !c.KeyValue? ==> c.text == line
    ensures c.KeyValue? ==> '=' !in c.key && Trimmed(c.key) && Trimmed(c.value)
    ensures c.KeyValue? ==> multiset(c.value)['='] + 1 == multiset(line)['=']
  {
    if StartsWith(line, "#") then Comment(line)
    else if '=' !in line then Plain(line)
    else
      var parts := SplitFirst(line, '=');
      SplitKeepsEquals(line);
      KeyValue(Trim(parts[0]), Trim(parts[1]))
  }

  /** The key holds no `=`; the value holds every `=` of the line but the first. */
  lemma SplitKeepsEquals(line: string)
    requires '=' in line
    ensures var parts := SplitFirst(line, '=');
      && '=' !in Trim(parts[0])
      && multiset(Trim(parts[1]))['='] + 1 == multiset(line)['=']
  {
    var parts := SplitFirst(line, '=');
    var key, value := parts[0], parts[1];
    assert !IsSpace('=');
    assert multiset(Trim(key))['='] == multiset(key)['='] == 0;
    assert multiset(Trim(value))['='] == multiset(value)['='];
    CountAround(key, '=', value);
  }

  /** The occurrences of `c` in `a + [c] + b`: those of `a`, one, and those of `b`. */
  lemma CountAround(a: string, c: char, b: string)
    ensures multiset(a + [c] + b)[c] == multiset(a)[c] + 1 + multiset(b)[c]
  {
    assert multiset(a + [c] + b) == multiset(a) + multiset([c]) + multiset(b);
  }

  /** The text written for an encrypted value. */
  function Wrap(ciphertext: string): (w: string)
  {
    "ENC(" + ciphertext + ")"
  }

  /** The text written for a parsed line. */
  function RenderLine(c: ConfigLine, excluded: set<string>, enc: string -> string): (r: string)
  {
    match c
    case Comment(text) => text
    case Plain(text) => text
    case KeyValue(key, value) =>
      if key in excluded then key + "=" + value else key + "=" + Wrap(enc(value))
  }

  /** The text written for one input line. */
  function TransformLine(line: string, excluded: set<string>, enc: string -> string): (r: string)
  {
    RenderLine(ParseLine(line), excluded, enc)
  }

  /** Comments and lines without `=` are written unchanged, whatever the exclusions. */
  lemma TransformLinePassThrough(line: string, excluded: set<string>, enc: string -> string)
    requires StartsWith(line, "#") || '=' !in line
    ensures TransformLine(line, excluded, enc) == line
  {
  }

  /** The lines written for a file. */
  function Transcode(lines: seq<string>, excluded: set<string>, enc: string -> string): (r: seq<string>)
    ensures |r| == |lines|
  {
    if lines == [] then []
    else [TransformLine(lines[0], excluded, enc)] + Transcode(lines[1..], excluded, enc)
  }

  /** The text of the written file: every line followed by a newline, the last one included. */
  function FileText(lines: seq<string>): (text: string)
  {
    if lines == [] then [] else lines[0] + [NewLine] + FileText(lines[1..])
  }

  /**
   * Reading a text back line by line at `\n`: a final line without
   * terminator still counts, an empty text has no lines.
   */
  function ReadLines(t: string): (lines: seq<string>)
    decreases |t|
  {
    if t == [] then []
    else
      var i := IndexOf(t, NewLine);
      if i == -1 then [t] else [t[..i]] + ReadLines(t[i + 1..])
  }

  /**
   * The per-file loop: read a line, decide, write it and a newline, until
   * the reader is exhausted. `out` is the sequence of lines written and
   * `text` the characters that reach the output file.
   */
  method EncryptFile(lines: seq<string>, excluded: set<string>, enc: string -> string)
    returns (out: seq<string>, text: string)
    ensures out == Transcode(lines, excluded, enc)
    ensures text == FileText(out)
  {
    out, text := [], [];
    var i := 0;
    while i < |lines|
      invariant 0 <= i <= |lines|
      invariant out == Transcode(lines[..i], excluded, enc)
      invariant text == FileText(out)
    {
      var line := lines[i];
      var written := TransformLine(line, excluded, enc);
      FileTextAppend(out, written);
      TranscodeSnoc(lines, i, excluded, enc);
      out := out + [written];
      text := text + written + [NewLine];
      i := i + 1;
    }
    assert lines[..i] == lines;
  }

  /**
   * The output has exactly one line per input line, in the same order: line
   * `i` of the output is the transformation of line `i` of the input.
   */
  lemma {:induction false} TranscodeLineByLine(lines: seq<string>, excluded: set<string>, enc: string -> string, i: nat)
    requires i < |lines|
    ensures |Transcode(lines, excluded, enc)| == |lines|
    ensures Transcode(lines, excluded, enc)[i] == TransformLine(lines[i], excluded, enc)
  {
    if i > 0 {
      TranscodeLineByLine(lines[1..], excluded, enc, i - 1);
    }
  }

  /** Transcoding works line by line: a file split in two transcodes in two. */
  lemma {:induction false} TranscodeAppend(a: seq<string>, b: seq<string>, excluded: set<string>, enc: string -> string)
    ensures Transcode(a + b, excluded, enc) == Transcode(a, excluded, enc) + Transcode(b, excluded, enc)
  {
    if a != [] {
      assert (a + b)[1..] == a[1..] + b;
      TranscodeAppend(a[1..], b, excluded, enc);
    } else {
      assert a + b == b;
    }
  }

  /** Transcoding one more line appends the transformation of that line. */
  lemma TranscodeSnoc(lines: seq<string>, i: nat, excluded: set<string>, enc: string -> string)
    requires i < |lines|
    ensures Transcode(lines[..i + 1], excluded, enc)
      == Transcode(lines[..i], excluded, enc) + [TransformLine(lines[i], excluded, enc)]
  {
    assert lines[..i + 1] == lines[..i] + [lines[i]];
    TranscodeAppend(lines[..i], [lines[i]], excluded, enc);
  }

  /** Writing one more line appends that line and its newline to the file text. */
  lemma {:induction false} FileTextAppend(lines: seq<string>, line: string)
    ensures FileText(lines + [line]) == FileText(lines) + line + [NewLine]
  {
    if lines != [] {
      assert (lines + [line])[1..] == lines[1..] + [line];
      FileTextAppend(lines[1..], line);
    }
  }

  /** A file written from newline-free lines reads back as exactly those lines. */
  lemma {:induction false} ReadLinesFileText(lines: seq<string>)
    requires forall k :: 0 <= k < |lines| ==> NewLine !in lines[k]
    ensures ReadLines(FileText(lines)) == lines
  {
    if lines != [] {
      ReadLinesCons(lines[0], FileText(lines[1..]));
      ReadLinesFileText(lines[1..]);
    }
  }

  /** Reading a text that starts with a newline-free line and a newline yields that line first. */
  lemma ReadLinesCons(head: string, rest: string)
    requires NewLine !in head
    ensures ReadLines(head + [NewLine] + rest) == [head] + ReadLines(rest)
  {
    var t := head + [NewLine] + rest;
    SplitFirstOf(head, NewLine, rest);
    assert IndexOf(t, NewLine) == |head|;
    assert t[..|head|] == head && t[|head| + 1..] == rest;
  }

  /**
   * A line made of a raw key without `=`, not starting with `#`, then `=`,
   * then a raw value, parses into that key and that value, both trimmed.
   */
  lemma ParseKeyValueLine(rawKey: string, rawValue: string)
    requires '=' !in rawKey && !StartsWith(rawKey, "#")
    ensures ParseLine(rawKey + "=" + rawValue) == KeyValue(Trim(rawKey), Trim(rawValue))
  {
    var line := rawKey + "=" + rawValue;
    SplitFirstOf(rawKey, '=', rawValue);
    assert line[|rawKey|] == '=';
    assert !StartsWith(line, "#") by {
      if rawKey != [] {
        assert line[0] == rawKey[0];
      }
    }
  }

  /**
   * Lines as `readLine` delivers them hold no newline; given an encryptor
   * whose ciphertext holds none either (as Base64 text), no written line
   * holds one.
   */
  lemma TransformLineNoNewline(line: string, excluded: set<string>, enc: string -> string)
    requires NewLine !in line
    requires forall v :: NewLine !in enc(v)
    ensures NewLine !in TransformLine(line, excluded, enc)
  {
    var c := ParseLine(line);
    if c.KeyValue? {
      var parts := SplitFirst(line, '=');
      assert line == parts[0] + "=" + parts[1];
      assert NewLine !in parts[0] && NewLine !in parts[1];
      assert c == KeyValue(Trim(parts[0]), Trim(parts[1]));
      var key, value := c.key, c.value;
      assert NewLine !in multiset(key) && NewLine !in multiset(value);
      var w := if key in excluded then value else Wrap(enc(value));
      assert NewLine !in w by {
        if key !in excluded {
          NoNewlineWrap(enc(value));
        }
      }
      assert TransformLine(line, excluded, enc) == RenderLine(KeyValue(key, value), excluded, enc);
      assert TransformLine(line, excluded, enc) == key + "=" + w;
    }
  }

  lemma NoNewlineWrap(ciphertext: string)
    requires NewLine !in ciphertext
    ensures NewLine !in Wrap(ciphertext)
  {
  }

  /**
   * The output file, read back line by line, is exactly the transcoded
   * lines: one per input line, in order.
   */
  lemma ReadBackTranscoded(lines: seq<string>, excluded: set<string>, enc: string -> string)
    requires forall k :: 0 <= k < |lines| ==> NewLine !in lines[k]
    requires forall v :: NewLine !in enc(v)
    ensures ReadLines(FileText(Transcode(lines, excluded, enc))) == Transcode(lines, excluded, enc)
  {
    var out := Transcode(lines, excluded, enc);
    forall k | 0 <= k < |out|
      ensures NewLine !in out[k]
    {
      TranscodeLineByLine(lines, excluded, enc, k);
      TransformLineNoNewline(lines[k], excluded, enc);
    }
    ReadLinesFileText(out);
  }

  /**
   * For a key/value line, given as the raw text before its first `=` and the
   * raw text after it: an excluded key keeps its value and any other key gets
   * `ENC(...)` around the encryption of the value. The key itself is never
   * encrypted.
   */
  lemma TransformKeyValueLine(rawKey: string, rawValue: string, excluded: set<string>, enc: string -> string)
    requires '=' !in rawKey && !StartsWith(rawKey, "#")
    ensures var key, value := Trim(rawKey), Trim(rawValue);
      TransformLine(rawKey + "=" + rawValue, excluded, enc)
        == if key in excluded then key + "=" + value else key + "=ENC(" + enc(value) + ")"
  {
    ParseKeyValueLine(rawKey, rawValue);
    var key, value := Trim(rawKey), Trim(rawValue);
    WrapConcat(key, enc(value));
    assert TransformLine(rawKey + "=" + rawValue, excluded, enc) == RenderLine(KeyValue(key, value), excluded, enc);
  }

  lemma WrapConcat(key: string, ciphertext: string)
    ensures key + "=" + Wrap(ciphertext) == key + "=ENC(" + ciphertext + ")"
  {
  }

  /**
   * Reading a transcoded key/value line again finds the same key with the
   * written value: the original value for an excluded key, `ENC(...)`
   * otherwise. This fails only for a key that starts with `#` after trimming
   * (such as the line ` #k=v`): the written line then reads as a comment.
   */
  lemma TransformLineReparse(line: string, excluded: set<string>, enc: string -> string)
    requires ParseLine(line).KeyValue?
    requires !StartsWith(ParseLine(line).key, "#")
    ensures var key, value := ParseLine(line).key, ParseLine(line).value;
      ParseLine(TransformLine(line, excluded, enc))
        == KeyValue(key, if key in excluded then value else Wrap(enc(value)))
  {
    var key, value := ParseLine(line).key, ParseLine(line).value;
    var w := if key in excluded then value else Wrap(enc(value));
    assert ParseLine(line) == KeyValue(key, value);
    assert TransformLine(line, excluded, enc) == RenderLine(KeyValue(key, value), excluded, enc);
    assert TransformLine(line, excluded, enc) == key + "=" + w;
    assert Trimmed(w) by {
      if key !in excluded {
        var ciphertext := enc(value);
        assert w[0] == 'E' && w[|w| - 1] == ')';
      }
    }
    ParseTrimmedKeyValue(key, w);
  }

  /** A written key/value line reads back as the same key and value. */
  lemma ParseTrimmedKeyValue(key: string, value: string)
    requires '=' !in key && !StartsWith(key, "#") && Trimmed(key) && Trimmed(value)
    ensures ParseLine(key + "=" + value) == KeyValue(key, value)
  {
    ParseKeyValueLine(key, value);
    TrimTrimmed(key);
    TrimTrimmed(value);
  }

  /**
   * The example of a small file: a comment, an excluded key and an
   * encrypted key.
   */
  lemma ExampleFile(enc: string -> string)
    ensures Transcode(["# comment", "db.user" + "=" + "admin", "db.pass" + "=" + "secret123"], {"db.user"}, enc)
      == ["# comment", "db.user" + "=" + "admin", "db.pass" + "=ENC(" + enc("secret123") + ")"]
  {
    var excluded := {"db.user"};
    assert StartsWith("# comment", "#");
    TransformLinePassThrough("# comment", excluded, enc);
    ExampleKeyValue("db.user", "admin", excluded, enc);
    ExampleKeyValue("db.pass", "secret123", excluded, enc);
    TranscodeThree("# comment", "db.user" + "=" + "admin", "db.pass" + "=" + "secret123", excluded, enc);
  }

  lemma TranscodeThree(l0: string, l1: string, l2: string, excluded: set<string>, enc: string -> string)
    ensures Transcode([l0, l1, l2], excluded, enc)
      == [TransformLine(l0, excluded, enc), TransformLine(l1, excluded, enc), TransformLine(l2, excluded, enc)]
  {
    var lines := [l0, l1, l2];
    TranscodeLineByLine(lines, excluded, enc, 0);
    TranscodeLineByLine(lines, excluded, enc, 1);
    TranscodeLineByLine(lines, excluded, enc, 2);
  }

  lemma ExampleKeyValue(key: string, value: string, excluded: set<string>, enc: string -> string)
    requires '=' !in key && key != [] && key[0] != '#' && Trimmed(key) && Trimmed(value)
    ensures TransformLine(key + "=" + value, excluded, enc)
      == if key in excluded then key + "=" + value else key + "=ENC(" + enc(value) + ")"
  {
    assert !StartsWith(key, "#");
    ParseTrimmedKeyValue(key, value);
    WrapConcat(key, enc(value));
    assert TransformLine(key + "=" + value, excluded, enc) == RenderLine(KeyValue(key, value), excluded, enc);
  }
}
