# github-upload.rb in Dafny

A model of the string-building core of `github-upload.rb`, a command-line
script that uploads a file to the (legacy) GitHub Downloads area of a
repository. The script:

1. with `-f`, lists the repository's downloads and deletes every entry whose
   name is the upload's name;
2. registers the download with GitHub, announcing name, size, description and
   content type;
3. pushes the file to the storage service named in GitHub's answer, as a
   hand-built `multipart/form-data` body whose field names go through the
   script's own `urlencode`;
4. prints the storage URL of the file.

The Dafny project has four modules:

- `RubyStrings` (`rubystrings.dfy`): the Ruby library pieces the script
  relies on: `Array#join`, `Integer#to_s` on sizes, `String#chomp`, and
  an `EndsWith` predicate.
- `UrlEncoding` (`urlencode.dfy`): `urlencode`, with its escape as it behaves
  under Ruby 1.9 and the escape its format string was written for.
- `Multipart` (`multipart.dfy`): `build_multipart_content`, as a method with a
  loop over the parameters, proved equal to a functional description of the
  body (`Body`). The properties of the body are proved about that description.
- `Upload` (`upload.dfy`): MIME-type trimming, the force-overwrite loop, the
  registration fields, the storage-push field list, the result URL, and the
  whole flow from line 148 to line 190 as a method. That method returns what
  the script prints and requests, in order, and its exit status.

Printed lines and HTTP requests are recorded as events (`Say`, `Get`, `Delete`, `Post`). Server
answers, the `file -ib` output, the file's size and content, and the two
`rand(1000000)` draws for the boundary are inputs.

Behaviour the model follows from the code, where a reader might expect
otherwise:

- `urlencode` escapes every character outside `[A-Za-z0-9_.-]` as `%00`, not
  as the character's hex code. Under Ruby 1.9, which the script requires,
  `s[0]` is a one-character String and `to_i` of a non-digit is 0. So
  `a b.txt` is sent as `a%00b.txt`, not `a%20b.txt` (`UrlEncoding.SpaceEscape`).
  The intended escape is kept as `IntendedEscape`, and `EscapeLosesByte`
  proves that the two agree only on NUL. The storage push's own field names
  are all unreserved, so the quirk never shows in the requests the script
  sends (`Upload.StorageNamesVerbatim`).
- With no parameters, the body is the opening delimiter followed by the close
  delimiter, `--b\r\n--b--`, not the close delimiter alone (`Multipart.BodyFraming`).
- `gsub(/;.*/, '')` removes a `;` and the rest of its line only; `.` does not
  match a newline, so on text with several lines every line is trimmed.
- Line 173 compares `res.class` for equality with `Net::HTTPClientError`.
  Only a response whose class is exactly that one is reported as an existing
  file: a 4xx code that Net::HTTP has no class of its own for. Every other
  failure, including codes with their own 4xx class such as 404
  (`Net::HTTPNotFound`) or 409 (`Net::HTTPConflict`), is reported as "GitHub
  doesn't want us to upload the file." Which class a given code such as 422
  gets depends on the Ruby version's Net::HTTP; the model takes the class as
  an input.

## Model

| member | source | states |
|---|---|---|
| RubyStrings.Decimal | github-upload.rb:85 | `Integer#to_s` of a size (also at line 168) is a non-empty string of decimal digits, with a leading `0` only for zero |
| RubyStrings.DecimalRoundTrip | github-upload.rb:168 | reading back the decimal text of a size gives the size |
| RubyStrings.Chomp | github-upload.rb:25 | `chomp` removes a trailing CRLF, or else a single trailing LF or CR, or nothing when the text does not end in one; what is left is a prefix |
| RubyStrings.Join | github-upload.rb:95-98 | `Array#join`: no ensures of its own; `JoinAsDelimited` proves that a join preceded by its separator is every element preceded by the separator, which is how the body is read |
| RubyStrings.JoinAsDelimited | github-upload.rb:98 | `d + Join(xs, d)` is every element of `xs` preceded by `d`, for a non-empty list |
| UrlEncoding.Escape | github-upload.rb:72 | the as-written escape is three characters starting with `%`, and `%00` for every character the pattern selects |
| UrlEncoding.EscapeLosesByte | github-upload.rb:72 | the as-written escape equals the intended `%` plus two hex digits exactly when the character is NUL |
| UrlEncoding.IntendedEscape | github-upload.rb:72 | the reading the format string `%%%02x` was written for: `%` then two lowercase hex digits whose value, high digit times 16 plus low digit, is the byte; compared with the as-written escape in `EscapeLosesByte` and `SpaceEscape` |
| UrlEncoding.Hex2 | github-upload.rb:72 | `%02x` of a byte: two lowercase hex digits, high digit times 16 plus low digit being the byte |
| UrlEncoding.EncodeChar | github-upload.rb:72 | an unreserved character is kept, any other becomes a three-character escape starting with `%` |
| UrlEncoding.Urlencode | github-upload.rb:71-73 | output length is input length plus twice the number of escaped characters; the output holds only unreserved characters and `%`, so it cannot close the quoted name |
| UrlEncoding.UrlencodeIdentity | github-upload.rb:72 | `urlencode` leaves a name unchanged if and only if every character of it is unreserved |
| UrlEncoding.UrlencodeUnreserved | github-upload.rb:72 | a name of unreserved characters is returned unchanged |
| UrlEncoding.UrlencodeConcat | github-upload.rb:72 | encoding is character by character: the encoding of a concatenation is the concatenation of the encodings |
| UrlEncoding.SpaceEscape | github-upload.rb:72 | a space between unreserved text becomes `%00` (so `a b.txt` gives `a%00b.txt`), while the intended escape of a space is `%20` |
| Multipart.Part | github-upload.rb:95 | every part ends with CRLF |
| Multipart.Parts | github-upload.rb:80-96 | there is one part per parameter |
| Multipart.PartsAt | github-upload.rb:80-96 | the i-th part is built from the i-th parameter |
| Multipart.PartsConcat | github-upload.rb:80-96 | the parts of two parameter lists, one after the other, are the parts of the first list followed by those of the second |
| Multipart.BoundaryUnreserved | github-upload.rb:78 | every character of the boundary is a digit, a lowercase letter or `-`, and all of them are unreserved, so it holds no CR, LF or quote |
| Multipart.Boundary | github-upload.rb:78 | the boundary from the two random draws; its alphabet is stated in `BoundaryUnreserved` |
| Multipart.Headers | github-upload.rb:99-100 | the header map has the single key `Content-Type`, whose value is `multipart/form-data; boundary=` followed by the boundary |
| Multipart.Body | github-upload.rb:98 | the body text; its framing, part order and tail are stated in `BodyFraming`, `BodyAsDelimitedParts`, `BodyAppend` and `BodyEndsWithFileContent` |
| Multipart.CollectPartLines | github-upload.rb:81-93 | the lines pushed for one parameter are the disposition, type, length, encoding, blank and content lines of a file, or the disposition, blank and value lines of a text |
| Multipart.BuildMultipartContent | github-upload.rb:77-101 | the loop over the parameters yields exactly the body `Body` describes, and the header map whose only entry is `Content-Type` = `multipart/form-data; boundary=` followed by the boundary |
| Multipart.BodyFraming | github-upload.rb:98 | the body starts with `--b` CRLF and ends with `--b--`; with no parameters it is exactly `--b\r\n--b--` |
| Multipart.BodyAsDelimitedParts | github-upload.rb:98 | a body with parameters is each part preceded by `--b` CRLF, in parameter order, then `--b--` |
| Multipart.BodyAppend | github-upload.rb:80-98 | appending a parameter adds its part, after its own delimiter, just before the close delimiter, and moves no earlier part |
| Multipart.PartsInOrder | github-upload.rb:80-98 | the delimited parts of a concatenation of parameter lists are those of the first list followed by those of the second: no reordering |
| Multipart.TextPartShape | github-upload.rb:90-95 | a text part is the disposition line with the encoded name, CRLF, an empty line, the value, and CRLF |
| Multipart.FilePartShape | github-upload.rb:82-95 | a file part is the disposition line with the encoded name and the basename, then the type, length and transfer-encoding lines, an empty line, the content and CRLF |
| Multipart.FilePartEndsWithContent | github-upload.rb:88-95 | a file part ends with the file's content, unchanged, followed by CRLF |
| Multipart.BodyEndsWithFileContent | github-upload.rb:95-98 | when the last parameter is a file, the body ends with its content, unchanged, then CRLF and `--b--` |
| Upload.SkipToNewline | github-upload.rb:25 | what `.*` leaves after a `;` is a suffix of the text that is empty or starts with a newline, and no newline comes before it |
| Upload.TrimMime | github-upload.rb:25 | the trimmed text is no longer than the input and holds no `;` |
| Upload.TrimMimeIdentity | github-upload.rb:25 | trimming leaves a text unchanged if and only if it holds no `;` |
| Upload.TrimMimeIdempotent | github-upload.rb:170 | trimming twice, as the type is at lines 25 and 170, is trimming once |
| Upload.TrimMimeOneLine | github-upload.rb:25 | on one line, the trimmed text is a prefix of the input, and the input has a `;` right where the result stops short |
| Upload.PathnameType | github-upload.rb:23-26 | the content type of the file holds no `;` |
| Upload.ForceOverwrite | github-upload.rb:148-163 | the loop yields exactly `ForceEvents`: without `-f` nothing is requested; with it, the listing is fetched and each entry named like the file is announced and deleted, in listing order; no DELETE response is looked at |
| Upload.ForceEvents | github-upload.rb:148-163 | nothing without `-f`; with it, the GET of the listing and then the deletion events of the matching entries; its selection and events are specified by `MatchingMembership`, `MatchingConcat` and `DeletionEventsAt` |
| Upload.Matching | github-upload.rb:153-161 | the entries selected for deletion are no more than the listing; `MatchingMembership` (iff) and `MatchingConcat` (order) specify it |
| Upload.DeletionEvents | github-upload.rb:157-159 | two events per selected entry; `DeletionEventsAt` and `DeletionEventsKinds` give each event |
| Upload.DeletionEventsSnoc | github-upload.rb:157-159 | one more selected entry adds its message and then the DELETE of its id, with the token, after the earlier events |
| Upload.MatchingMembership | github-upload.rb:153-161 | an entry is deleted if and only if it is in the listing and its name is the upload's name |
| Upload.MatchingConcat | github-upload.rb:153-161 | the selection keeps listing order: the matches of two listings one after the other are the matches of each, in turn |
| Upload.DeletionEventsAt | github-upload.rb:157-159 | for the k-th selected entry, the 2k-th event is its message and the next is the DELETE of its id with the token |
| Upload.DeletionEventsKinds | github-upload.rb:153-161 | the deletion pass only prints and deletes |
| Upload.RegistrationFields | github-upload.rb:167-171 | four fields; the size is decimal digits and the content type holds no `;` |
| Upload.RegistrationAgreesWithFilePart | github-upload.rb:167-171 | the registered content type, trimmed a second time, is the type the file part carries, and the registered size reads back as the file's size, given one `file -ib` output and one size for both uses |
| Upload.StorageParamsShape | github-upload.rb:179-184 | the storage push has nine fields in the fixed order `key`, `acl`, `success_action_status`, `Filename`, `AWSAccessKeyId`, `Policy`, `signature`, `Content-Type`, `file`; the status is `201`; only the last is a file |
| Upload.StorageParams | github-upload.rb:179-184 | one field per storage field name, the last being the local file; the full order is stated in `StorageParamsShape` |
| Upload.StorageNamesVerbatim | github-upload.rb:179-184 | `urlencode` leaves every storage field name as it is |
| Upload.StoragePushLayout | github-upload.rb:179-184 | the storage-push body is the eight text parts in order, then the file part just before the close delimiter |
| Upload.StoragePushEndsWithFile | github-upload.rb:179-184 | the storage-push body ends with the file's content, unchanged, then CRLF and `--b--` |
| Upload.ResultUrl | github-upload.rb:190 | the printed line is the storage URL followed by the key path |
| Upload.Upload | github-upload.rb:148-190 | the requests and lines of the run, in order, for each outcome of registration and storage; exit status 0 exactly when both answer Created; a failed registration reports an existing file only for the exact client-error class, and then no request without the token has been sent |

## Left out

- `get`, `post` and `delete` (github-upload.rb:34-69): HTTPS and TLS are not modelled. A request is an event. The inputs are the parsed listing of the GET, the class and parsed body of the registration response, and the class of the storage response; no GET or DELETE response class is an input.
- Upload.ForceOverwrite and Upload.Upload: the listing response is not checked. A body that is not a JSON array of objects makes line 152 or 154 raise and ends the run, with status 1, before the registration request; the model assumes the listing parsed to an array of entries, so it has no such outcome.
- `JSON.parse` and `to_json`: the registration fields are kept as a list of pairs, and the parsed listing and ticket are given as strings. A missing JSON key (`nil`, which interpolates as empty text) is not modelled.
- `Pathname#type` runs `file -ib` on the file, and `size` and `read` touch the filesystem. The command's output, the size and the content are inputs.
- `Pathname#type` and `size` are each evaluated twice (lines 84 and 170, lines 85 and 168). The model gives both calls the same result, so it assumes the file does not change during the run; `Upload.RegistrationAgreesWithFilePart` relies on this.
- `rand(1000000)`: the two random draws of the boundary are parameters of `BuildMultipartContent` and `Upload`. Their range is not used by any property.
- The Ruby version check, `git config`, the remote-URL regular expression, `OptionParser`, and the printing of help: command-line and environment plumbing. `die` is modelled as a printed line and exit status 1.
- `UrlEncoding.Urlencode`: defined for ASCII names only. With the `/n` flag, what the pattern does to other characters depends on the string's encoding.
- Response classes: Ruby's `Net::HTTPResponse` class hierarchy is reduced to four cases: exactly Created, exactly `Net::HTTPClientError`, a subclass of it, and anything else.
- Upload.TrimMimeOneLine: the prefix property is proved for one-line input only. On text with several lines, `TrimMime` follows `gsub` line by line.
- A file content or value that contains the boundary is sent as is. The script does not check for it, and neither does the model.
