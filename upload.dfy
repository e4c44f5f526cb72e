/** The upload flow of github-upload.rb (lines 144-190): optional removal of
    remote files with the same name, registration of the download, the push
    of the file to the storage service, and the printed URL. HTTP calls are
    recorded as events; their responses are inputs. */
module Upload {
  import opened RubyStrings
  import opened UrlEncoding
  import opened Multipart

  datatype Option<T> = None | Some(value: T)

  // ---------------------------------------------------------------------------
  // MIME type: `gsub(/;.*/, '')` (github-upload.rb:25 and 170)
  // ---------------------------------------------------------------------------

  /** What is left after `.*` has consumed everything up to, and not
      including, the next newline (`.` does not match "\n"). */
  function SkipToNewline(s: string): (r: string)
    ensures |r| <= |s| && r == s[|s| - |r|..]
    ensures r == [] || r[0] == '\n'
    ensures forall i :: 0 <= i < |s| - |r| ==> s[i] != '\n'
  {
    if s == [] || s[0] == '\n' then s else SkipToNewline(s[1..])
  }

  /** The substitution of lines 25 and 170: every `;` is removed together with the rest of its
      line, and the line break itself is kept. The result holds no `;`. */
  function TrimMime(s: string): (r: string)
    ensures |r| <= |s|
    ensures forall i :: 0 <= i < |r| ==> r[i] != ';'
    decreases |s|
  {
    if s == [] then []
    else if s[0] == ';' then TrimMime(SkipToNewline(s[1..]))
    else [s[0]] + TrimMime(s[1..])
  }

  /** Trimming leaves a string alone exactly when it holds no `;`. */
  lemma {:induction false} TrimMimeIdentity(s: string)
    ensures TrimMime(s) == s <==> forall i :: 0 <= i < |s| ==> s[i] != ';'
  {
    if forall i :: 0 <= i < |s| ==> s[i] != ';' {
      if s != [] {
        assert forall i :: 0 <= i < |s| - 1 ==> s[1..][i] == s[i + 1];
        TrimMimeIdentity(s[1..]);
        assert s == [s[0]] + s[1..];
      }
    }
  }

  /** Trimming twice is trimming once; the script trims the type at line 25
      and again at line 170. */
  lemma TrimMimeIdempotent(s: string)
    ensures TrimMime(TrimMime(s)) == TrimMime(s)
  {
    TrimMimeIdentity(TrimMime(s));
  }

  /** On one line (the output of `file -ib`), trimming keeps exactly the text
      before the first `;`: the result is a prefix of the input, and the input
      goes on with a `;` wherever the result stops short of it. */
  lemma {:induction false} TrimMimeOneLine(s: string)
    requires forall i :: 0 <= i < |s| ==> s[i] != '\n'
    ensures TrimMime(s) <= s
    ensures |TrimMime(s)| < |s| ==> s[|TrimMime(s)|] == ';'
  {
    if s != [] {
      if s[0] == ';' {
        assert SkipToNewline(s[1..]) == [];
      } else {
        assert forall i :: 0 <= i < |s| - 1 ==> s[1..][i] == s[i + 1];
        TrimMimeOneLine(s[1..]);
      }
    }
  }

  /** `Pathname#type`: the output of `file -ib` (an external process, given
      here), chomped and trimmed. */
  function PathnameType(fileOutput: string): (r: string)
    ensures forall i :: 0 <= i < |r| ==> r[i] != ';'
  {
    TrimMime(Chomp(fileOutput))
  }

  // ---------------------------------------------------------------------------
  // Inputs and events
  // ---------------------------------------------------------------------------

  /** The local file: `basename`, the output of `file -ib` on it, `size` and
      the content `read` returns. */
  datatype LocalFile = LocalFile(basename: string, fileOutput: string, size: nat, content: string)

  /** One entry of the downloads listing, its `id` and `name` already turned
      into strings by `to_s`. */
  datatype RemoteFile = RemoteFile(id: string, name: string)

  /** The fields of the registration response the script reads. */
  datatype Ticket = Ticket(
    s3Url: string, path: string, acl: string, name: string,
    accessKeyId: string, policy: string, signature: string, mimeType: string)

  /** The class of a Net::HTTP response, as far as the script looks at it.
      `ClientError` is the class Net::HTTPClientError itself, which Net::HTTP
      only uses for a 4xx code it has no subclass for; `ClientErrorSubclass`
      is any 4xx code that has its own class, such as 404 (Net::HTTPNotFound)
      or 409 (Net::HTTPConflict). Which of the two a given code gets, 422
      for one, depends on the Ruby version's Net::HTTP. */
  datatype ResponseClass = Created | ClientError | ClientErrorSubclass | OtherClass

  datatype Payload =
    | Json(fields: seq<(string, string)>)
    | Form(body: string, headers: map<string, string>)

  /** What the script does that is seen from outside: a line on standard
      output, or an HTTPS request. `token` is the `Authorization: token ...`
      header, absent when the script passes nil. */
  datatype Event =
    | Say(line: string)
    | Get(url: string, token: Option<string>)
    | Delete(url: string, token: Option<string>)
    | Post(url: string, token: Option<string>, payload: Payload)

  /** The command line after option parsing: the token from git config (a
      String, possibly empty, so always sent), the repository, the local
      file, the remote name (`-n`, the basename by default), the description
      (`-d`) and `-f`. */
  datatype Invocation = Invocation(
    token: string, repo: string, file: LocalFile, fileName: string,
    description: string, force: bool)

  /** What the servers answer: the parsed downloads listing, the class of the
      registration response, its parsed body, and the class of the storage
      service's response. */
  datatype Server = Server(
    listing: seq<RemoteFile>, registration: ResponseClass, ticket: Ticket, storage: ResponseClass)

  function DownloadsUrl(repo: string): string
  {
    "https://api.github.com/repos/" + repo + "/downloads"
  }

  // ---------------------------------------------------------------------------
  // Force overwrite (github-upload.rb:148-163)
  // ---------------------------------------------------------------------------

  /** The entries of the listing whose name is `fileName`, in listing order. */
  function Matching(listing: seq<RemoteFile>, fileName: string): (r: seq<RemoteFile>)
    ensures |r| <= |listing|
  {
    if listing == [] then []
    else
      var last := listing[|listing| - 1];
      Matching(listing[..|listing| - 1], fileName) + (if last.name == fileName then [last] else [])
  }

  /** For each doomed entry, the message and then the DELETE of its id. */
  function DeletionEvents(repo: string, token: string, doomed: seq<RemoteFile>): (r: seq<Event>)
    ensures |r| == 2 * |doomed|
  {
    if doomed == [] then []
    else
      var last := doomed[|doomed| - 1];
      DeletionEvents(repo, token, doomed[..|doomed| - 1])
        + [Say("Deleting existing file '" + last.name + "'"),
           Delete(DownloadsUrl(repo) + "/" + last.id, Some(token))]
  }

  lemma DeletionEventsSnoc(repo: string, token: string, doomed: seq<RemoteFile>, e: RemoteFile)
    ensures DeletionEvents(repo, token, doomed + [e])
      == DeletionEvents(repo, token, doomed)
         + [Say("Deleting existing file '" + e.name + "'"), Delete(DownloadsUrl(repo) + "/" + e.id, Some(token))]
  {
    assert (doomed + [e])[..|doomed|] == doomed;
  }

  /** What the `if force_upload` block does: nothing without `-f`; with it,
      the GET of the listing, then the message and DELETE of every entry named
      like the file, in listing order. */
  function ForceEvents(force: bool, repo: string, token: string, fileName: string, listing: seq<RemoteFile>): seq<Event>
  {
    if force then [Get(DownloadsUrl(repo), Some(token))] + DeletionEvents(repo, token, Matching(listing, fileName))
    else []
  }

  /** The `if force_upload` block: list the downloads, then walk the listing
      and delete every entry named like the file. The DELETE responses are
      assigned to `res` and never looked at, so no deletion ends the run. */
  method ForceOverwrite(force: bool, repo: string, token: string, fileName: string, listing: seq<RemoteFile>)
    returns (events: seq<Event>)
    ensures events == ForceEvents(force, repo, token, fileName, listing)
  {
    events := [];
    if force {
      events := events + [Get(DownloadsUrl(repo), Some(token))];
      var i := 0;
      while i < |listing|
        invariant 0 <= i <= |listing|
        invariant events == [Get(DownloadsUrl(repo), Some(token))] + DeletionEvents(repo, token, Matching(listing[..i], fileName))
      {
        var remoteFileName := listing[i].name;
        ghost var matched := Matching(listing[..i], fileName);
        assert listing[..i + 1][..i] == listing[..i];
        if remoteFileName == fileName {
          assert Matching(listing[..i + 1], fileName) == matched + [listing[i]];
          DeletionEventsSnoc(repo, token, matched, listing[i]);
          events := events + [Say("Deleting existing file '" + remoteFileName + "'")];
          var remoteFileId := listing[i].id;
          events := events + [Delete(DownloadsUrl(repo) + "/" + remoteFileId, Some(token))];
        } else {
          assert Matching(listing[..i + 1], fileName) == matched;
        }
        i := i + 1;
      }
      assert listing[..|listing|] == listing;
    }
  }

  /** An entry is deleted exactly when it is in the listing under the file's
      name. */
  lemma {:induction false} MatchingMembership(listing: seq<RemoteFile>, fileName: string, e: RemoteFile)
    ensures e in Matching(listing, fileName) <==> e in listing && e.name == fileName
  {
    if listing != [] {
      var init := listing[..|listing| - 1];
      MatchingMembership(init, fileName, e);
      assert listing == init + [listing[|listing| - 1]];
    }
  }

  /** Selection keeps listing order: the matches of two listings one after
      the other are the matches of the first, then those of the second. */
  lemma {:induction false} MatchingConcat(xs: seq<RemoteFile>, ys: seq<RemoteFile>, fileName: string)
    ensures Matching(xs + ys, fileName) == Matching(xs, fileName) + Matching(ys, fileName)
  {
    if ys == [] {
      assert xs + ys == xs;
    } else {
      var init := ys[..|ys| - 1];
      assert (xs + ys)[..|xs + ys| - 1] == xs + init;
      MatchingConcat(xs, init, fileName);
    }
  }

  /** The k-th doomed entry gives the events 2k (the message naming it) and
      2k+1 (the DELETE of its id, with the token); there are no others. */
  lemma {:induction false} DeletionEventsAt(repo: string, token: string, doomed: seq<RemoteFile>)
    ensures |DeletionEvents(repo, token, doomed)| == 2 * |doomed|
    ensures forall k :: 0 <= k < |doomed| ==>
      DeletionEvents(repo, token, doomed)[2 * k] == Say("Deleting existing file '" + doomed[k].name + "'") &&
      DeletionEvents(repo, token, doomed)[2 * k + 1] == Delete(DownloadsUrl(repo) + "/" + doomed[k].id, Some(token))
  {
    if doomed != [] {
      var init := doomed[..|doomed| - 1];
      DeletionEventsAt(repo, token, init);
      forall k | 0 <= k < |doomed|
        ensures DeletionEvents(repo, token, doomed)[2 * k] == Say("Deleting existing file '" + doomed[k].name + "'")
        ensures DeletionEvents(repo, token, doomed)[2 * k + 1] == Delete(DownloadsUrl(repo) + "/" + doomed[k].id, Some(token))
      {
        if k < |init| {
          assert doomed[k] == init[k];
        }
      }
    }
  }

  /** The deletion pass only prints and deletes. */
  lemma {:induction false} DeletionEventsKinds(repo: string, token: string, doomed: seq<RemoteFile>)
    ensures forall e :: e in DeletionEvents(repo, token, doomed) ==> e.Say? || e.Delete?
  {
    if doomed != [] {
      DeletionEventsKinds(repo, token, doomed[..|doomed| - 1]);
    }
  }

  // ---------------------------------------------------------------------------
  // Registration and storage push (github-upload.rb:166-190)
  // ---------------------------------------------------------------------------

  /** The hash sent, as JSON, to register the download. */
  function RegistrationFields(inv: Invocation): (r: seq<(string, string)>)
    ensures |r| == 4 && AllDigits(r[1].1)
    ensures forall i :: 0 <= i < |r[3].1| ==> r[3].1[i] != ';'
  {
    [("name", inv.fileName),
     ("size", Decimal(inv.file.size)),
     ("description", inv.description),
     ("content_type", TrimMime(PathnameType(inv.file.fileOutput)))]
  }

  /** The file as the multipart serialiser sees it. */
  function FileValue(f: LocalFile): Value
  {
    File(f.basename, PathnameType(f.fileOutput), f.size, f.content)
  }

  /** The registration announces the same content type as the file part of
      the storage push carries, and the file's size in decimal. */
  lemma RegistrationAgreesWithFilePart(inv: Invocation)
    ensures RegistrationFields(inv)[3].1 == FileValue(inv.file).mimeType
    ensures DecimalValue(RegistrationFields(inv)[1].1) == inv.file.size
  {
    TrimMimeIdempotent(Chomp(inv.file.fileOutput));
    DecimalRoundTrip(inv.file.size);
  }

  /** A field name that `urlencode` leaves as it is. */
  type VerbatimName = s: string | IsAscii(s) && AllUnreserved(s) witness ""

  const KeyField: VerbatimName := "key"
  const AclField: VerbatimName := "acl"
  const StatusField: VerbatimName := "success_action_status"
  const FilenameField: VerbatimName := "Filename"
  const AccessKeyField: VerbatimName := "AWSAccessKeyId"
  const PolicyField: VerbatimName := "Policy"
  const SignatureField: VerbatimName := "signature"
  const ContentTypeField: VerbatimName := "Content-Type"
  const FileField: VerbatimName := "file"

  /** The storage-push field names, in the order of the hash literal. */
  const StorageFieldNames: seq<VerbatimName> :=
    [KeyField, AclField, StatusField, FilenameField, AccessKeyField, PolicyField, SignatureField, ContentTypeField, FileField]

  /** The hash given to `build_multipart_content` for the storage push. */
  function StorageParams(t: Ticket, f: LocalFile): (r: seq<Param>)
    ensures |r| == |StorageFieldNames|
    ensures r[|r| - 1].value == FileValue(f)
  {
    [Param(KeyField, Text(t.path)),
     Param(AclField, Text(t.acl)),
     Param(StatusField, Text("201")),
     Param(FilenameField, Text(t.name)),
     Param(AccessKeyField, Text(t.accessKeyId)),
     Param(PolicyField, Text(t.policy)),
     Param(SignatureField, Text(t.signature)),
     Param(ContentTypeField, Text(t.mimeType)),
     Param(FileField, FileValue(f))]
  }

  /** The storage push has the nine fields in their fixed order, the status
      field is "201", and the file is the last field and the only file. */
  lemma StorageParamsShape(t: Ticket, f: LocalFile)
    ensures var ps := StorageParams(t, f);
      && |ps| == |StorageFieldNames| == 9
      && (forall i :: 0 <= i < 9 ==> ps[i].name == StorageFieldNames[i])
      && (forall i :: 0 <= i < 8 ==> ps[i].value.Text?)
      && ps[2].value == Text("201")
      && ps[8].value == File(f.basename, PathnameType(f.fileOutput), f.size, f.content)
  {
  }

  /** `urlencode` leaves every storage field name as it is. */
  lemma StorageNamesVerbatim()
    ensures forall n :: n in StorageFieldNames ==> Urlencode(n) == n
  {
    forall n | n in StorageFieldNames ensures Urlencode(n) == n {
      UrlencodeUnreserved(n);
    }
  }

  /** The storage-push body: the eight text parts in their fixed order, then
      the file part just before the close delimiter. */
  lemma StoragePushLayout(t: Ticket, f: LocalFile)
    ensures var ps := StorageParams(t, f);
      forall boundary :: Body(ps, boundary)
        == Delimited(Parts(ps[..8]), Delimiter(boundary)) + Delimiter(boundary) + Part(ps[8]) + CloseDelimiter(boundary)
  {
    var ps := StorageParams(t, f);
    assert ps == ps[..8] + [ps[8]];
    forall boundary
      ensures Body(ps, boundary)
        == Delimited(Parts(ps[..8]), Delimiter(boundary)) + Delimiter(boundary) + Part(ps[8]) + CloseDelimiter(boundary)
    {
      BodyAppend(ps[..8], ps[8], boundary);
    }
  }

  /** The storage-push body ends with the file's content, unchanged, then
      CRLF and the close delimiter. */
  lemma StoragePushEndsWithFile(t: Ticket, f: LocalFile, boundary: string)
    ensures EndsWith(Body(StorageParams(t, f), boundary), f.content + CRLF + CloseDelimiter(boundary))
  {
    var ps := StorageParams(t, f);
    BodyEndsWithFileContent(ps, boundary);
  }

  /** The line printed on success: the storage URL followed by the key. */
  function ResultUrl(t: Ticket): (r: string)
    ensures |r| == |t.s3Url| + |t.path|
    ensures r[..|t.s3Url|] == t.s3Url && r[|t.s3Url|..] == t.path
  {
    t.s3Url + t.path
  }

  function RegistrationRequest(inv: Invocation): Event
  {
    Post(DownloadsUrl(inv.repo), Some(inv.token), Json(RegistrationFields(inv)))
  }

  /** The storage push: a multipart POST to the storage URL, with no token. */
  function StoragePush(t: Ticket, f: LocalFile, boundary: string): Event
  {
    Post(t.s3Url, None, Form(Body(StorageParams(t, f), boundary), Headers(boundary)))
  }

  function AlreadyExists(fileName: string): string
  {
    "File already exists named '" + fileName + "'."
  }

  const Rejected: string := "GitHub doesn't want us to upload the file."

  const StorageRefused: string := "S3 is mean to us."

  /** The script from line 148 on, with the two random draws of the boundary as parameters.
      It returns what it printed and requested, in order, and its exit status
      (`die` prints and exits with 1). Registration stops the run unless its
      response is exactly Net::HTTPCreated; only exactly Net::HTTPClientError
      is reported as an existing file. The storage push is sent only after a
      created registration, and the URL is printed only after a created push. */
  method Upload(inv: Invocation, server: Server, r1: nat, r2: nat)
    returns (events: seq<Event>, status: int)
    ensures server.registration == ClientError ==>
      events == ForceEvents(inv.force, inv.repo, inv.token, inv.fileName, server.listing) + [RegistrationRequest(inv), Say(AlreadyExists(inv.fileName))]
    ensures server.registration in {ClientErrorSubclass, OtherClass} ==>
      events == ForceEvents(inv.force, inv.repo, inv.token, inv.fileName, server.listing) + [RegistrationRequest(inv), Say(Rejected)]
    ensures server.registration == Created && server.storage == Created ==>
      events == ForceEvents(inv.force, inv.repo, inv.token, inv.fileName, server.listing)
        + [RegistrationRequest(inv), StoragePush(server.ticket, inv.file, Boundary(r1, r2)), Say(ResultUrl(server.ticket))]
    ensures server.registration == Created && server.storage != Created ==>
      events == ForceEvents(inv.force, inv.repo, inv.token, inv.fileName, server.listing)
        + [RegistrationRequest(inv), StoragePush(server.ticket, inv.file, Boundary(r1, r2)), Say(StorageRefused)]
    ensures status == 0 <==> server.registration == Created && server.storage == Created
    ensures status == 0 || status == 1
    ensures server.registration != Created ==> forall e :: e in events ==> !(e.Post? && e.token.None?)
  {
    var forced := ForceOverwrite(inv.force, inv.repo, inv.token, inv.fileName, server.listing);
    events := forced + [RegistrationRequest(inv)];
    if server.registration != Created {
      if inv.force {
        DeletionEventsKinds(inv.repo, inv.token, Matching(server.listing, inv.fileName));
      }
      if server.registration == ClientError {
        events := forced + [RegistrationRequest(inv), Say(AlreadyExists(inv.fileName))];
      } else {
        events := forced + [RegistrationRequest(inv), Say(Rejected)];
      }
      status := 1;
      return;
    }
    var info := server.ticket;
    var body, headers := BuildMultipartContent(StorageParams(info, inv.file), r1, r2);
    var push := Post(info.s3Url, None, Form(body, headers));
    assert push == StoragePush(info, inv.file, Boundary(r1, r2));
    if server.storage != Created {
      events := forced + [RegistrationRequest(inv), push, Say(StorageRefused)];
      status := 1;
      return;
    }
    events := forced + [RegistrationRequest(inv), push, Say(ResultUrl(info))];
    status := 0;
  }
}
