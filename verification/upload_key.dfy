/** The storage key `uploadFile` derives for a new upload: the folder (`misc`
    for the root path), a fresh unique id, and the file name with every
    whitespace character removed. Signing the URL is the storage service's
    business and enters only as the outcome it reports. */
module UploadKey {
  import opened Common
  import opened Text
  import Middleware

  const MiscFolder := "misc"

  /** The folder part: the root path `/` files under `misc`. */
  function Folder(path: string): string {
    if path == "/" then MiscFolder else path
  }

  predicate IsSuffix(p: string, s: string) {
    |p| <= |s| && s[|s| - |p|..] == p
  }

  /** The key of an upload of `fileName` to `path` under the fresh id `uuid`. */
  function FileKey(path: string, uuid: string, fileName: string): (key: string)
    ensures path == "/" ==> IsPrefix("misc/", key)
    ensures path != "/" ==> IsPrefix(path + "/", key)
    ensures IsSuffix(uuid + "-" + StripWhitespace(fileName), key)
    ensures Contains(key, uuid)
    ensures |key| == |Folder(path)| + 1 + |uuid| + 1 + |StripWhitespace(fileName)|
  {
    var folder := Folder(path) + "/";
    var tail := "-" + StripWhitespace(fileName);
    ContainsPart(folder, uuid, tail);
    assert folder + uuid + tail == folder + (uuid + tail);
    folder + uuid + tail
  }

  /** Whitespace in the name never reaches the key: a name and its stripped
      form give the same key. */
  lemma FileKeyIgnoresWhitespace(path: string, uuid: string, fileName: string)
    ensures FileKey(path, uuid, fileName) == FileKey(path, uuid, StripWhitespace(fileName))
  {
    StripWhitespaceIdempotent(fileName);
  }

  /** The root path files under `misc`, and a space in the name is dropped:
      `my file.png` becomes `misc/<uuid>-myfile.png`. */
  lemma FileKeyAtRoot(uuid: string, first: string, rest: string)
    requires NoWhitespace(first) && NoWhitespace(rest)
    ensures FileKey("/", uuid, first + " " + rest) == "misc/" + uuid + "-" + first + rest
  {
    StripWhitespaceSeparator(first, ' ', rest);
  }

  /** Any other path is the folder itself, and a clean name is kept:
      `a.png` in `docs` becomes `docs/<uuid>-a.png`. */
  lemma FileKeyInFolder(path: string, uuid: string, fileName: string)
    requires path != "/" && NoWhitespace(fileName)
    ensures FileKey(path, uuid, fileName) == path + "/" + uuid + "-" + fileName
  {
    StripWhitespaceKeeps(fileName);
  }

  /** The root path and an explicit `misc` path share one folder. */
  lemma RootAndMiscShareFolder(uuid: string, fileName: string)
    ensures FileKey("/", uuid, fileName) == FileKey(MiscFolder, uuid, fileName)
  {
  }

  /** `S3SubmissionResponse`: the signed request with its key, or errors. */
  datatype UploadResponse =
    | UploadData(signedRequest: string, fileKey: string)
    | UploadErrors(errors: seq<MessageField>)

  function SigningFailed(err: string): MessageField {
    MessageField(" signedUrl", "Error: could not generate S3 presigned url - " + err)
  }

  /** `uploadFile`, behind `isAuth`. `signing` is what the storage client's
      `getSignedUrl` produced for the key: the URL, or the error it threw. */
  function UploadFile(session: Option<int>, path: string, fileName: string, uuid: string,
                      signing: Result<string>): (r: Result<UploadResponse>)
    ensures r.Thrown? <==> !Middleware.SignedIn(session)
    ensures r.Ok? && signing.Ok? ==> r.value == UploadData(signing.value, FileKey(path, uuid, fileName))
    ensures r.Ok? && signing.Thrown? ==> r.value == UploadErrors([SigningFailed(signing.message)])
  {
    Middleware.IsAuth(session, () =>
      if signing.Ok? then UploadData(signing.value, FileKey(path, uuid, fileName))
      else UploadErrors([SigningFailed(signing.message)]))
  }
}
