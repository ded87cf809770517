/**
 * The upload task of dags/rpps_dag.py: the CSV files of the scratch
 * directory are written, one by one and with overwrite, to the blob
 * container under BLOB_FOLDER_PATH; a failing file is logged and skipped.
 */
module Uploader {
  import opened Text
  import opened Batches
  import opened DownloadSettler

  const CsvSuffix := ".csv"

  /** The default of the AZURE_BLOB_PATH setting; the model takes the folder as a parameter. */
  const DefaultBlobFolder := "000-dado-bruto/000-fonte-externa/016-mpc-rpps"

  /** f.lower().endswith(".csv") */
  predicate IsCsvName(name: string) {
    EndsWith(Lower(name), CsvSuffix)
  }

  /** The comprehension over os.listdir(pasta_downloads): the CSV names, in listing order. */
  function CsvFiles(listing: seq<string>): (r: seq<string>)
    ensures |r| <= |listing|
    ensures forall x :: x in r <==> x in listing && IsCsvName(x)
  {
    if listing == [] then []
    else (if IsCsvName(listing[0]) then [listing[0]] else []) + CsvFiles(listing[1..])
  }

  /** The filter keeps the listing's order: it distributes over concatenation. */
  lemma {:induction false} CsvFilesAppend(a: seq<string>, b: seq<string>)
    ensures CsvFiles(a + b) == CsvFiles(a) + CsvFiles(b)
  {
    if a != [] {
      assert (a + b)[0] == a[0] && (a + b)[1..] == a[1..] + b;
      CsvFilesAppend(a[1..], b);
      var h := if IsCsvName(a[0]) then [a[0]] else [];
      assert CsvFiles(a) == h + CsvFiles(a[1..]);
      assert CsvFiles(a + b) == h + CsvFiles(a[1..] + b);
      assert h + (CsvFiles(a[1..]) + CsvFiles(b)) == (h + CsvFiles(a[1..])) + CsvFiles(b);
    } else {
      assert a + b == b;
    }
  }

  /** A listing of distinct names gives distinct candidates. */
  lemma {:induction false} CsvFilesDistinct(listing: seq<string>)
    requires Distinct(listing)
    ensures Distinct(CsvFiles(listing))
  {
    if listing != [] {
      var rest := listing[1..];
      assert Distinct(rest) by {
        forall i, j | 0 <= i < j < |rest| ensures rest[i] != rest[j] {
          assert rest[i] == listing[i + 1] && rest[j] == listing[j + 1];
        }
      }
      CsvFilesDistinct(rest);
      assert listing[0] !in rest by {
        forall i | 0 <= i < |rest| ensures rest[i] != listing[0] {
          assert rest[i] == listing[i + 1];
        }
      }
    }
  }

  /** A download still carrying the in-progress marker is never uploaded. */
  lemma PartialIsNotCsv(name: string)
    requires IsPartial(name)
    ensures !IsCsvName(name)
  {
    var n := |name|;
    assert name[n - 1] == InProgress[|InProgress| - 1];
    assert Lower(name)[n - 1] == 'd';
  }

  /** Upper-case extensions count: "RPPS.CSV" is a candidate. */
  lemma UpperCaseExtensionCounts(name: string)
    requires name == "RPPS.CSV"
    ensures IsCsvName(name)
  {
    var l := Lower(name);
    assert l[4] == '.' && l[5] == 'c' && l[6] == 's' && l[7] == 'v';
    assert l[4..] == CsvSuffix;
  }

  /** f"{BLOB_FOLDER_PATH}/{file_name}" */
  function BlobPath(folder: string, name: string): (p: string)
    ensures |p| == |folder| + 1 + |name|
    ensures p[..|folder|] == folder && p[|folder|] == '/' && p[|folder| + 1..] == name
  {
    folder + "/" + name
  }

  /** Distinct files of one folder go to distinct blobs. */
  lemma BlobPathInjective(folder: string, a: string, b: string)
    requires BlobPath(folder, a) == BlobPath(folder, b)
    ensures a == b
  {
    assert a == BlobPath(folder, a)[|folder| + 1..];
  }

  // -------------------------------------------------------------- uploads

  /**
   * The outcome of the try block for one file: whether open() and
   * upload_blob(..., overwrite=True) together succeeded, given the index of
   * the file in the candidate list and its blob path.
   */
  type UploadOracle = (nat, string) -> bool

  datatype Upload = Upload(file: string, blob: string, ok: bool)

  /** What the task reports: the early return, or the per-file lines and the final count. */
  datatype UploadReport =
    | NothingToUpload
    | Uploaded(uploads: seq<Upload>, reported: nat)

  function UploadsOf(r: UploadReport): seq<Upload> {
    if r.Uploaded? then r.uploads else []
  }

  /**
   * One upload per candidate, in order; a file that is no longer in the
   * directory fails to open, and any other file succeeds exactly when the
   * oracle says so, whatever happened to the files before it.
   */
  function Uploads(dir: map<string, Bytes>, files: seq<string>, folder: string, send: UploadOracle): (us: seq<Upload>)
    ensures |us| == |files|
    ensures forall i :: 0 <= i < |files| ==> us[i].file == files[i] && us[i].blob == BlobPath(folder, files[i])
    ensures forall i :: 0 <= i < |files| ==> (us[i].ok <==> files[i] in dir && send(i, us[i].blob))
  {
    seq(|files|, i requires 0 <= i < |files| =>
      var blob := BlobPath(folder, files[i]);
      Upload(files[i], blob, files[i] in dir && send(i, blob)))
  }

  /**
   * Only a file still in the directory is uploaded, and two uploads share
   * a blob only when they send the same file: distinct files never
   * overwrite each other.
   */
  lemma UploadsMeaning(dir: map<string, Bytes>, files: seq<string>, folder: string, send: UploadOracle)
    ensures var us := Uploads(dir, files, folder, send);
      && (forall i :: 0 <= i < |us| && us[i].ok ==> us[i].file in dir)
      && (forall i, j :: 0 <= i < |us| && 0 <= j < |us| && us[i].blob == us[j].blob ==> us[i].file == us[j].file)
  {
    var us := Uploads(dir, files, folder, send);
    forall i, j | 0 <= i < |us| && 0 <= j < |us| && us[i].blob == us[j].blob
      ensures us[i].file == us[j].file
    {
      BlobPathInjective(folder, files[i], files[j]);
    }
  }

  /** The whole task: no candidate means the early return, otherwise every candidate is tried. */
  function Report(dir: map<string, Bytes>, listing: seq<string>, folder: string, send: UploadOracle): (r: UploadReport)
    ensures r.NothingToUpload? <==> forall x :: x in listing ==> !IsCsvName(x)
    ensures r.Uploaded? ==> r.reported == |CsvFiles(listing)| == |r.uploads| && r.reported > 0
    ensures r.Uploaded? ==> forall i :: 0 <= i < |r.uploads| ==> r.uploads[i].file == CsvFiles(listing)[i]
  {
    var files := CsvFiles(listing);
    if files == [] then NothingToUpload
    else
      assert files[0] in listing;
      Uploaded(Uploads(dir, files, folder, send), |files|)
  }

  function Oks(us: seq<Upload>): (bs: seq<bool>)
    ensures |bs| == |us| && forall i :: 0 <= i < |us| ==> bs[i] == us[i].ok
  {
    seq(|us|, i requires 0 <= i < |us| => us[i].ok)
  }

  /**
   * The final log line counts the candidates, not the successes: one failed
   * upload among N leaves N - 1 successes and still reports N.
   */
  lemma OneFailedUpload(dir: map<string, Bytes>, listing: seq<string>, folder: string, send: UploadOracle, f: nat)
    requires Report(dir, listing, folder, send).Uploaded?
    requires f < |Report(dir, listing, folder, send).uploads|
    requires !Report(dir, listing, folder, send).uploads[f].ok
    requires forall i :: 0 <= i < |Report(dir, listing, folder, send).uploads| && i != f ==>
      Report(dir, listing, folder, send).uploads[i].ok
    ensures var r := Report(dir, listing, folder, send);
      CountTrue(Oks(r.uploads)) == r.reported - 1
  {
    var r := Report(dir, listing, folder, send);
    OneFailureCostsOne(Oks(r.uploads), f);
  }

  // ------------------------------------------------------- the container

  /** The container after the uploads: each successful one overwrites its blob with the file's bytes. */
  function Publish(remote: map<string, Bytes>, dir: map<string, Bytes>, us: seq<Upload>): map<string, Bytes> {
    if us == [] then remote
    else
      var before := Publish(remote, dir, us[..|us| - 1]);
      var u := us[|us| - 1];
      if u.ok && u.file in dir then before[u.blob := dir[u.file]] else before
  }

  lemma PublishStep(remote: map<string, Bytes>, dir: map<string, Bytes>, us: seq<Upload>, u: Upload)
    ensures Publish(remote, dir, us + [u])
         == if u.ok && u.file in dir then Publish(remote, dir, us)[u.blob := dir[u.file]] else Publish(remote, dir, us)
  {
    assert (us + [u])[..|us|] == us;
  }

  /** m with every entry of w written over it. */
  function Overlay(m: map<string, Bytes>, w: map<string, Bytes>): (r: map<string, Bytes>)
    ensures r.Keys == m.Keys + w.Keys
    ensures forall k :: k in w ==> r[k] == w[k]
    ensures forall k :: k in m && k !in w ==> r[k] == m[k]
  {
    map k | k in m.Keys + w.Keys :: if k in w then w[k] else m[k]
  }

  /** Overwriting uploads act as one overlay of what they write, whatever was there before. */
  lemma {:induction false} PublishIsOverlay(remote: map<string, Bytes>, dir: map<string, Bytes>, us: seq<Upload>)
    ensures Publish(remote, dir, us) == Overlay(remote, Publish(map[], dir, us))
  {
    if us != [] {
      PublishIsOverlay(remote, dir, us[..|us| - 1]);
    }
  }

  /** Re-running the same uploads (an Airflow retry) changes nothing more: overwrite=True. */
  lemma RerunIsIdempotent(remote: map<string, Bytes>, dir: map<string, Bytes>, us: seq<Upload>)
    ensures Publish(Publish(remote, dir, us), dir, us) == Publish(remote, dir, us)
  {
    var w := Publish(map[], dir, us);
    PublishIsOverlay(remote, dir, us);
    PublishIsOverlay(Publish(remote, dir, us), dir, us);
    assert Overlay(Overlay(remote, w), w) == Overlay(remote, w);
  }

  /** A blob no successful upload names keeps its old content, or stays absent. */
  lemma {:induction false} PublishLeavesOthers(remote: map<string, Bytes>, dir: map<string, Bytes>, us: seq<Upload>, k: string)
    requires forall j :: 0 <= j < |us| && us[j].ok ==> us[j].blob != k
    ensures (k in Publish(remote, dir, us) <==> k in remote)
    ensures k in remote ==> Publish(remote, dir, us)[k] == remote[k]
  {
    if us != [] {
      PublishLeavesOthers(remote, dir, us[..|us| - 1], k);
    }
  }

  /** A successful upload that no later successful upload overwrites leaves the file's bytes in its blob. */
  lemma {:induction false} PublishLastWriteWins(remote: map<string, Bytes>, dir: map<string, Bytes>, us: seq<Upload>, j: nat)
    requires j < |us| && us[j].ok && us[j].file in dir
    requires forall i :: j < i < |us| && us[i].ok ==> us[i].blob != us[j].blob
    ensures us[j].blob in Publish(remote, dir, us) && Publish(remote, dir, us)[us[j].blob] == dir[us[j].file]
  {
    if j < |us| - 1 {
      PublishLastWriteWins(remote, dir, us[..|us| - 1], j);
    }
  }

  /**
   * After the task, over a listing of distinct names: every successful
   * upload's blob holds that file's bytes, and every blob outside the
   * successful uploads is as it was.
   */
  lemma UploadsLand(remote: map<string, Bytes>, dir: map<string, Bytes>, listing: seq<string>, folder: string, send: UploadOracle)
    requires Distinct(listing)
    ensures var us := UploadsOf(Report(dir, listing, folder, send));
      && (forall j :: 0 <= j < |us| && us[j].ok ==>
            us[j].blob in Publish(remote, dir, us) && Publish(remote, dir, us)[us[j].blob] == dir[us[j].file])
      && (forall k :: (forall j :: 0 <= j < |us| && us[j].ok ==> us[j].blob != k) ==>
            (k in Publish(remote, dir, us) <==> k in remote))
  {
    var us := UploadsOf(Report(dir, listing, folder, send));
    var files := CsvFiles(listing);
    CsvFilesDistinct(listing);
    forall j | 0 <= j < |us| && us[j].ok
      ensures us[j].blob in Publish(remote, dir, us) && Publish(remote, dir, us)[us[j].blob] == dir[us[j].file]
    {
      forall i | j < i < |us| && us[i].ok ensures us[i].blob != us[j].blob {
        if us[i].blob == us[j].blob {
          BlobPathInjective(folder, files[i], files[j]);
        }
      }
      PublishLastWriteWins(remote, dir, us, j);
    }
    forall k | (forall j :: 0 <= j < |us| && us[j].ok ==> us[j].blob != k)
      ensures k in Publish(remote, dir, us) <==> k in remote
    {
      PublishLeavesOthers(remote, dir, us, k);
    }
  }

  /** The blob container, written in place by the upload loop. */
  class BlobContainer {
    var blobs: map<string, Bytes>

    constructor (initial: map<string, Bytes>)
      ensures blobs == initial
    {
      blobs := initial;
    }

    /**
     * upload_para_azure: `dir` holds the scratch directory's files and
     * `listing` is os.listdir of it; `send` stands for the Azure client.
     */
    method UploadToAzure(dir: map<string, Bytes>, listing: seq<string>, folder: string, send: UploadOracle)
      returns (report: UploadReport)
      modifies this
      ensures report == Report(dir, listing, folder, send)
      ensures blobs == Publish(old(blobs), dir, UploadsOf(report))
      ensures report.NothingToUpload? ==> blobs == old(blobs)
    {
      var csvFiles := CsvFiles(listing);
      if csvFiles == [] {
        return NothingToUpload;                          // "Nenhum CSV encontrado"
      }
      ghost var all := Uploads(dir, csvFiles, folder, send);
      var uploads: seq<Upload> := [];
      for i := 0 to |csvFiles|
        invariant uploads == all[..i]
        invariant blobs == Publish(old(blobs), dir, uploads)
      {
        var fileName := csvFiles[i];
        var blobFullPath := BlobPath(folder, fileName);
        var ok := fileName in dir && send(i, blobFullPath);
        if ok {
          blobs := blobs[blobFullPath := dir[fileName]];  // upload_blob(data, overwrite=True)
        }
        var u := Upload(fileName, blobFullPath, ok);
        assert all[i] == u;
        assert all[..i + 1] == all[..i] + [u];
        PublishStep(old(blobs), dir, uploads, u);
        uploads := uploads + [u];
      }
      assert all[..|csvFiles|] == all;
      report := Uploaded(uploads, |csvFiles|);
    }
  }
}
