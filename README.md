# EncryptEnvProperties in Dafny

A model of the Maven plugin goal `encrypt-env-properties`. The goal copies
every regular `.properties` file below
`<baseDir>/src/main/properties-noencript/properties` to the same relative
path below `<baseDir>/properties`. On the way, every `key=value` line whose
key is not in the exclusion set gets its value replaced by
`ENC(<ciphertext>)`.

The project has four modules, one per concern:

- `JavaString` (`java_string.dfy`): the parts of `java.lang.String` the
  plugin uses, over `seq<char>`. These are `trim()` (strips every character
  up to U+0020 at both ends), `startsWith`, `endsWith`, `contains`, and
  `split("=", 2)`, which splits at the first `=` and keeps empty parts.
  `indexOf` is the search underneath `split` (line 88).
- `Paths` (`paths.dfy`): absolute paths as sequences of name segments, with
  `toString`, `relativize` (common prefix, then `..` segments, then the rest)
  and `resolve`.
- `Transcoder` (`transcoder.dfy`): `encryptFile`.
  - The pure per-line decision (`ParseLine`, `RenderLine`, `TransformLine`)
    and its lifting to whole files (`Transcode`).
  - The imperative loop `EncryptFile`, proved against `Transcode` and
    against `FileText`, the characters written including each `newLine()`.
- `EncryptEnvProperties` (`mojo.dfy`): `execute` and `loadExcludedKeys`.
  - The input-root guard, the exclusion fallback, the two filters of the
    walk and the path mirroring.
  - The `forEach` loop over the walk as the method `ProcessFiles`, proved
    against the function `ProcessTree`.

The model takes these inputs as parameters:

- The encryptor is an arbitrary function `enc: string -> string`.
- Whether the input root and the exclusions file exist are booleans.
- The keys `Properties.load` yields are `Option<set<string>>`. `None` stands
  for an `IOException`.
- The walk is a sequence of `Entry` values: a path, whether it is a regular
  file, and its lines as `readLine` returns them. The lines are `None` when
  processing the file fails: creating the output directories, opening,
  reading or writing a file, or the encryptor throwing. Each of these is
  wrapped at line 52 the same way.
- `newLine()` writes `'\n'`.

## Model

| member | source | states |
|---|---|---|
| `Transcoder.EncryptFile` | src/main/java/com/dizan/plugins/encryptenvproperties/EncryptEnvPropertiesMojo.java:79-102 | The loop writes exactly `Transcode(lines)`, one output line per input line in input order. The text written is those lines, each followed by a newline, the last one included. |
| `Transcoder.TranscodeLineByLine` | src/main/java/com/dizan/plugins/encryptenvproperties/EncryptEnvPropertiesMojo.java:84-100 | The output has as many lines as the input, and output line `i` is the transformation of input line `i` alone. Nothing is dropped, duplicated or reordered. |
| `Transcoder.TranscodeAppend` | src/main/java/com/dizan/plugins/encryptenvproperties/EncryptEnvPropertiesMojo.java:84-100 | Transcoding is line-local: the transcoding of `a + b` is the transcoding of `a` followed by that of `b`. |
| `Transcoder.ParseLine` | src/main/java/com/dizan/plugins/encryptenvproperties/EncryptEnvPropertiesMojo.java:85-90 | A line is a comment exactly when its raw text starts with `#`. It is plain exactly when it is not a comment and has no `=`. Both keep their text. Otherwise the key has no `=` and the key and value are trimmed. The value holds every `=` of the line except the first. |
| `Transcoder.TransformLinePassThrough` | src/main/java/com/dizan/plugins/encryptenvproperties/EncryptEnvPropertiesMojo.java:85-86 | A line starting with `#` (even one containing `=`) and a line without `=` are written unchanged, whatever the exclusion set. |
| `Transcoder.ParseKeyValueLine` | src/main/java/com/dizan/plugins/encryptenvproperties/EncryptEnvPropertiesMojo.java:88-90 | For a raw key without `=` that does not start with `#`, the line `rawKey=rawValue` parses into the key `trim(rawKey)` and the value `trim(rawValue)`, whatever `rawValue` holds, empty or with more `=`. |
| `Transcoder.TransformKeyValueLine` | src/main/java/com/dizan/plugins/encryptenvproperties/EncryptEnvPropertiesMojo.java:88-96 | Such a line is written as `key=value` when the trimmed key is excluded. Otherwise it is written as `key=ENC(` + `enc(value)` + `)`. The key is never transformed, and only the value goes through the encryptor. |
| `Transcoder.TransformLineReparse` | src/main/java/com/dizan/plugins/encryptenvproperties/EncryptEnvPropertiesMojo.java:88-96 | Parsing an output key/value line again gives back the same key. The value is the original one if excluded and `ENC(...)` of the ciphertext otherwise. |
| `Transcoder.ReadLinesFileText` | src/main/java/com/dizan/plugins/encryptenvproperties/EncryptEnvPropertiesMojo.java:84-99 | Reading back, line by line, a text written as newline-free lines each followed by a newline recovers exactly those lines. |
| `Transcoder.ReadBackTranscoded` | src/main/java/com/dizan/plugins/encryptenvproperties/EncryptEnvPropertiesMojo.java:84-99 | Suppose the input lines have no newline and the ciphertexts have none either. Then reading the written output file line by line gives exactly the transcoded lines. |
| `Transcoder.ExampleFile` | src/main/java/com/dizan/plugins/encryptenvproperties/EncryptEnvPropertiesMojo.java:84-100 | The file `# comment`, `db.user=admin`, `db.pass=secret123` with `db.user` excluded becomes `# comment`, `db.user=admin`, `db.pass=ENC(enc("secret123"))`. |
| `JavaString.Trim` | src/main/java/com/dizan/plugins/encryptenvproperties/EncryptEnvPropertiesMojo.java:89-90 | `trim()` leaves no space at either end. It never lengthens the text, and it keeps every non-space character as often as it occurs. |
| `JavaString.TrimExact` | src/main/java/com/dizan/plugins/encryptenvproperties/EncryptEnvPropertiesMojo.java:89-90 | `trim()` of a trimmed text surrounded by spaces is that text. |
| `JavaString.TrimInfix` | src/main/java/com/dizan/plugins/encryptenvproperties/EncryptEnvPropertiesMojo.java:89-90 | `trim()` keeps a contiguous infix of the text, in order, preceded and followed by spaces only. |
| `JavaString.TrimIdempotent` | src/main/java/com/dizan/plugins/encryptenvproperties/EncryptEnvPropertiesMojo.java:89-90 | Trimming twice equals trimming once. |
| `JavaString.IndexOf` | src/main/java/com/dizan/plugins/encryptenvproperties/EncryptEnvPropertiesMojo.java:88 | `indexOf` is -1 exactly when the character is absent. Otherwise it is a position holding the character with no earlier occurrence. |
| `JavaString.SplitFirst` | src/main/java/com/dizan/plugins/encryptenvproperties/EncryptEnvPropertiesMojo.java:88 | `split("=", 2)` gives a single part when there is no `=`. Otherwise it gives two parts around the first `=`, which concatenate back to the line. |
| `JavaString.SplitFirstOf` | src/main/java/com/dizan/plugins/encryptenvproperties/EncryptEnvPropertiesMojo.java:88 | For `a` without `c`, splitting `a + c + b` at the first `c` recovers `a` and `b` exactly. |
| `Paths.PathStringEndsWith` | src/main/java/com/dizan/plugins/encryptenvproperties/EncryptEnvPropertiesMojo.java:42 | For a non-empty suffix without `/`, the path's text ends with the suffix exactly when the path's last name does. |
| `EncryptEnvProperties.IsPropertiesFileByName` | src/main/java/com/dizan/plugins/encryptenvproperties/EncryptEnvPropertiesMojo.java:42 | The `.properties` filter on `p.toString()` selects exactly the paths whose last name ends with `.properties`. |
| `Paths.RelativizeUnder` | src/main/java/com/dizan/plugins/encryptenvproperties/EncryptEnvPropertiesMojo.java:45 | `base.relativize(base + r)` is `r`. |
| `Paths.ResolveRelativize` | src/main/java/com/dizan/plugins/encryptenvproperties/EncryptEnvPropertiesMojo.java:45-46 | For a descendant `p` of `base`, `base.resolve(base.relativize(p))` is `p`. |
| `EncryptEnvProperties.MirrorUnder` | src/main/java/com/dizan/plugins/encryptenvproperties/EncryptEnvPropertiesMojo.java:45-46 | The file `inputRoot + rel` is written to `outputRoot + rel`. |
| `EncryptEnvProperties.MirrorKeepsRelativePath` | src/main/java/com/dizan/plugins/encryptenvproperties/EncryptEnvPropertiesMojo.java:45-46 | The destination's path relative to the output root is the source's path relative to the input root. |
| `EncryptEnvProperties.MirrorBack` | src/main/java/com/dizan/plugins/encryptenvproperties/EncryptEnvPropertiesMojo.java:45-46 | Mirroring from the output tree back to the input tree recovers every file below the input root. |
| `EncryptEnvProperties.MirrorInjective` | src/main/java/com/dizan/plugins/encryptenvproperties/EncryptEnvPropertiesMojo.java:45-46 | Two files below the input root with the same destination are the same file. |
| `EncryptEnvProperties.CheckInputRoot` | src/main/java/com/dizan/plugins/encryptenvproperties/EncryptEnvPropertiesMojo.java:29-31 | The guard fails exactly when the input root does not exist, and the failure names that root. |
| `EncryptEnvProperties.MissingInputRootFails` | src/main/java/com/dizan/plugins/encryptenvproperties/EncryptEnvPropertiesMojo.java:29-31 | A missing input root ends the run with nothing written. It is also the only way the run ends with that failure. |
| `EncryptEnvProperties.LoadExcludedKeys` | src/main/java/com/dizan/plugins/encryptenvproperties/EncryptEnvPropertiesMojo.java:63-76 | An absent exclusions file gives the empty set. So does an unreadable one. Otherwise the result is the loaded key names. |
| `EncryptEnvProperties.MissingExclusionsIsEmpty` | src/main/java/com/dizan/plugins/encryptenvproperties/EncryptEnvPropertiesMojo.java:64-66 | A run without an exclusions file is the same run as one with an empty exclusions file. |
| `EncryptEnvProperties.SelectedFiles` | src/main/java/com/dizan/plugins/encryptenvproperties/EncryptEnvPropertiesMojo.java:41-42 | An entry passes the walk's filters exactly when it is a regular file whose path ends with `.properties`. |
| `EncryptEnvProperties.FirstFailure` | src/main/java/com/dizan/plugins/encryptenvproperties/EncryptEnvPropertiesMojo.java:43-53 | Every selected file before the first failing one can be processed, and the file at that position cannot. |
| `EncryptEnvProperties.ProcessFiles` | src/main/java/com/dizan/plugins/encryptenvproperties/EncryptEnvPropertiesMojo.java:40-54 | The loop over the walk produces exactly `ProcessTree`: what it writes and where it stops. |
| `EncryptEnvProperties.ProcessFile` | src/main/java/com/dizan/plugins/encryptenvproperties/EncryptEnvPropertiesMojo.java:45-50 | The body of the `forEach` for a file that can be processed writes, at `outputRoot.resolve(inputRoot.relativize(file))`, the text of its transcoded lines. |
| `EncryptEnvProperties.ProcessStep` | src/main/java/com/dizan/plugins/encryptenvproperties/EncryptEnvPropertiesMojo.java:41-53 | At each step, a skipped entry writes nothing. A failing file ends the run with the files written so far. A processed file appends its mirrored, transcoded output. |
| `EncryptEnvProperties.ProcessTreeStops` | src/main/java/com/dizan/plugins/encryptenvproperties/EncryptEnvPropertiesMojo.java:43-53 | The run writes one file per selected file before the first failing one, in walk order. That failing file, if any, is the failure of the run. |
| `EncryptEnvProperties.ProcessTreeWrites` | src/main/java/com/dizan/plugins/encryptenvproperties/EncryptEnvPropertiesMojo.java:44-50 | The `j`-th file written is the `j`-th selected file, at its mirrored path, holding the text of its transcoded lines. |
| `EncryptEnvProperties.ProcessTreeComplete` | src/main/java/com/dizan/plugins/encryptenvproperties/EncryptEnvPropertiesMojo.java:40-54 | When every selected file can be processed, the run succeeds with one output per selected file. |
| `EncryptEnvProperties.DistinctDestinations` | src/main/java/com/dizan/plugins/encryptenvproperties/EncryptEnvPropertiesMojo.java:45-46 | Suppose the walk yields each path once, all below the input root. Then no two written files share a destination. |
| `EncryptEnvProperties.Execute` | src/main/java/com/dizan/plugins/encryptenvproperties/EncryptEnvPropertiesMojo.java:24-61 | `execute` produces exactly `ExecuteOutcome`: the guard, then the exclusions, then the walk. |
| `EncryptEnvProperties.OutputOutsideInput` | src/main/java/com/dizan/plugins/encryptenvproperties/EncryptEnvPropertiesMojo.java:25-27 | Every written file's path starts with the segments of `<baseDir>/properties` and not with those of the input root. The exclusions file is outside the input tree too. Paths are compared segment by segment, without resolving `..`. |
| `EncryptEnvProperties.WrittenMirrors` | src/main/java/com/dizan/plugins/encryptenvproperties/EncryptEnvPropertiesMojo.java:44-46 | For a walk that stays below the input root, as `Files.walk` does, the `j`-th written file lands exactly at the output root followed by the names of the `j`-th selected file below the input root. |

## Left out

- Maven plumbing: the `@Mojo` and `@Parameter` bindings, `AbstractMojo` and every `getLog()` message. These are framework adapter code and logging.
- Filesystem I/O: `Files.walk`, `Files.exists`, `Files.isRegularFile`, `createDirectories`, the readers and writers and their closing. These enter as the values described above. Any of them failing on a file is one `None`.
- An `IOException` from the walk itself (lines 58-59) is not modelled. The walk is a given sequence.
- The jasypt encryptor and its random IV (lines 35-38): `enc` is an arbitrary deterministic function. As a result, the model does not capture that the ciphertext differs from one `encrypt` call to the next, within a run as well as across runs (two equal values get different ciphertexts), nor that it is non-empty.
- `Properties.load` (lines 70-72): its escapes, continuation lines and separators belong to a library outside the model. The loaded key names are an input.
  - The warning at line 74 says that an exclusions file that cannot be read means the exclusions are ignored. The model's `None` is that case.
  - Only `IOException` is caught, at line 73. The `IllegalArgumentException` that `Properties.load` throws on a malformed `\u` escape therefore ends the whole run. The model does not capture that path.
- The terminators `readLine` accepts (`\r`, `\r\n`, `\n`) and the platform-dependent `line.separator` are not modelled. Input lines arrive already split, and `'\n'` is the only newline written.
- Exception wrapping (lines 51-52, 58-59): only its effect is modelled. The run ends at the first failing file, the files completed before it stay, and exception types and messages are left out.
- What a failing file leaves on disk is not modelled. `Outcome.written` records only the files that were completed.
  - Its output directories may already exist, because `createDirectories` runs at line 47.
  - `new FileWriter` at line 81 may have created or truncated its destination.
  - If `readLine` or the encryptor throws later, closing the `BufferedWriter` flushes the lines already transcoded. The destination then holds a prefix of its transcoded text, for example `FileText([TransformLine(line1)])` when the second `readLine` throws.
- `relativize` and `resolve` of paths containing `.` or `..` segments: paths are compared segment by segment, without normalisation. `getParent()` returning null is also left out. It cannot happen for a file below the output root.
- Java strings are UTF-16 code units; the model's `char` is a Unicode scalar value. `trim()`, the `#` test and the `=` test only look at characters up to U+0020, `#` and `=`, where the two agree.
- `Transcoder.ReadBackTranscoded` requires that no ciphertext contains a newline. That holds for jasypt's base64 output, but `enc` is arbitrary here.
- `Transcoder.TransformLineReparse` requires that the trimmed key does not start with `#`. A line such as ` #k=v` is encrypted, because the comment test looks at the raw line, but its output `#k=ENC(...)` reads back as a comment.
