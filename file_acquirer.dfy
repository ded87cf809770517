/**
 * File acquisition in dags/rpps_dag.py: inside the selected folder, one
 * download attempt per file row whose data-file contains "Carteira", then
 * one per fixed file-name prefix; each attempt finds its row by XPath and
 * drives the row's menu to "Download", and a failing attempt is logged and
 * skipped.
 */
module FileAcquirer {
  import opened Wrappers
  import opened Text
  import opened Batches
  import FolderResolver

  /** The substring that marks portfolio files. */
  const CarteiraMarker := "Carteira"

  /** ARQUIVOS: the name prefixes of the other files fetched, in order. */
  const Arquivos: seq<string> := [
    "2 - Colegiado Deliberativo do RPPS",
    "3 - Comit\U{EA} de Investimento do RPPS",
    "4 - Conselho de Fiscaliza\U{E7}\U{E3}o do RPPS",
    "6 - Forma de Gest\U{E3}o e Acessoramento",
    "8 - Gest\U{E3}o dos Recursos do RPPS"
  ]

  /** The XPath an attempt hands to find_element: //tr[@data-file='id'] or //tr[starts-with(@data-file, 'prefix')]. */
  datatype RowQuery = SameFile(id: string) | FilePrefix(prefix: string)

  predicate Selects(q: RowQuery, id: string) {
    match q
    case SameFile(x) => id == x
    case FilePrefix(p) => StartsWith(id, p)
  }

  /** find_element: the first row in page order that the query selects. */
  function FirstRow(rows: seq<string>, q: RowQuery): (r: Option<nat>)
    ensures r.Some? ==> r.value < |rows| && Selects(q, rows[r.value])
    ensures r.Some? ==> forall j :: 0 <= j < r.value ==> !Selects(q, rows[j])
    ensures r.None? ==> forall j :: 0 <= j < |rows| ==> !Selects(q, rows[j])
  {
    if rows == [] then None
    else if Selects(q, rows[0]) then Some(0)
    else match FirstRow(rows[1..], q)
      case None => None
      case Some(k) => Some(k + 1)
  }

  /** Row k is the one find_element returns for q: the first row q selects. */
  predicate FirstSelected(rows: seq<string>, q: RowQuery, k: nat) {
    k < |rows| && Selects(q, rows[k]) && forall j :: 0 <= j < k ==> !Selects(q, rows[j])
  }

  predicate IsCarteira(id: string) {
    Contains(id, CarteiraMarker)
  }

  /** find_elements(//tr[contains(@data-file, 'Carteira')]), read back as data-file values. */
  function CarteiraRows(rows: seq<string>): seq<string> {
    if rows == [] then [] else (if IsCarteira(rows[0]) then [rows[0]] else []) + CarteiraRows(rows[1..])
  }

  /** The filter keeps page order: filtering a concatenation concatenates the filtered parts. */
  lemma {:induction false} CarteiraRowsAppend(a: seq<string>, b: seq<string>)
    ensures CarteiraRows(a + b) == CarteiraRows(a) + CarteiraRows(b)
  {
    if a != [] {
      assert (a + b)[1..] == a[1..] + b;
      CarteiraRowsAppend(a[1..], b);
    } else {
      assert a + b == b;
    }
  }

  /** It keeps exactly the Carteira rows, duplicates included, and nothing else. */
  lemma {:induction false} CarteiraRowsMembers(rows: seq<string>, id: string)
    ensures id in CarteiraRows(rows) <==> id in rows && IsCarteira(id)
    ensures multiset(CarteiraRows(rows))[id] == if IsCarteira(id) then multiset(rows)[id] else 0
  {
    if rows != [] {
      CarteiraRowsMembers(rows[1..], id);
      assert rows == [rows[0]] + rows[1..];
      assert multiset(rows) == multiset([rows[0]]) + multiset(rows[1..]);
    }
  }

  /** The queries of the two loops, in the order they run. */
  function Plan(rows: seq<string>): (qs: seq<RowQuery>) {
    var cs := CarteiraRows(rows);
    seq(|cs|, i requires 0 <= i < |cs| => SameFile(cs[i])) + seq(|Arquivos|, j requires 0 <= j < |Arquivos| => FilePrefix(Arquivos[j]))
  }

  // ------------------------------------------------------- one attempt

  /** What can go wrong once the row is found: no "a.action" control, the click and its script fallback both fail, or the Download entry never becomes clickable. */
  datatype UiFailure = ActionMissing | ClickFailed | DownloadMenuTimeout

  datatype UiResult = Triggered | UiError(failure: UiFailure)

  /** The browser, abstracted: what the UI steps of attempt n yield on row k. */
  type UiOracle = (nat, nat) -> UiResult

  datatype AttemptError = RowNotFound | Ui(failure: UiFailure)

  /** The per-attempt log line: "✓ name" or "✗ Erro: ...". */
  datatype Attempt = Downloaded(id: string) | Failed(error: AttemptError)

  /** baixar(xpath) as attempt number n: every failure is caught and becomes a Failed outcome. */
  function Baixar(rows: seq<string>, q: RowQuery, n: nat, ui: UiOracle): (a: Attempt)
    ensures a == Failed(RowNotFound) <==> FirstRow(rows, q).None?
    ensures a.Downloaded? <==> FirstRow(rows, q).Some? && ui(n, FirstRow(rows, q).value) == Triggered
    ensures a.Downloaded? ==> a.id == rows[FirstRow(rows, q).value] && Selects(q, a.id)
  {
    match FirstRow(rows, q)
    case None => Failed(RowNotFound)
    case Some(k) =>
      match ui(n, k)
      case Triggered => Downloaded(rows[k])
      case UiError(e) => Failed(Ui(e))
  }

  /**
   * An attempt fails with RowNotFound exactly when q selects no row;
   * otherwise it works on the first row q selects, and its outcome is what
   * the UI does there.
   */
  lemma BaixarUsesFirstSelected(rows: seq<string>, q: RowQuery, n: nat, ui: UiOracle)
    ensures var a := Baixar(rows, q, n, ui);
      && (a == Failed(RowNotFound) <==> forall j :: 0 <= j < |rows| ==> !Selects(q, rows[j]))
      && (a.Downloaded? ==> exists k: nat :: FirstSelected(rows, q, k) && a.id == rows[k] && ui(n, k) == Triggered)
      && (a.Failed? && a.error.Ui? ==> exists k: nat :: FirstSelected(rows, q, k) && ui(n, k) == UiError(a.error.failure))
  {
    var r := FirstRow(rows, q);
    if r.Some? {
      assert FirstSelected(rows, q, r.value);
    }
  }

  /** The outcomes of all attempts: attempt n runs query n of the plan, whatever earlier attempts did. */
  function Outcomes(rows: seq<string>, ui: UiOracle): (os: seq<Attempt>)
    ensures |os| == |Plan(rows)|
  {
    var qs := Plan(rows);
    seq(|qs|, n requires 0 <= n < |qs| => Baixar(rows, qs[n], n, ui))
  }

  /** The two loops of rpps_dag.py over the rows of the selected folder. */
  method DownloadRows(rows: seq<string>, ui: UiOracle) returns (attempts: seq<Attempt>)
    ensures attempts == Outcomes(rows, ui)
  {
    var linhasCarteira := CarteiraRows(rows);
    ghost var all := Outcomes(rows, ui);
    ghost var qs := Plan(rows);
    attempts := [];
    for i := 0 to |linhasCarteira|
      invariant attempts == all[..i]
    {
      assert qs[i] == SameFile(linhasCarteira[i]);
      attempts := attempts + [Baixar(rows, SameFile(linhasCarteira[i]), i, ui)];
    }
    for j := 0 to |Arquivos|
      invariant attempts == all[..|linhasCarteira| + j]
    {
      assert qs[|linhasCarteira| + j] == FilePrefix(Arquivos[j]);
      attempts := attempts + [Baixar(rows, FilePrefix(Arquivos[j]), |linhasCarteira| + j, ui)];
    }
    assert all[..|all|] == all;
  }

  // -------------------------------------------------- what the loops promise

  /** One attempt per Carteira row, then one per ARQUIVOS prefix: |CarteiraRows| + 5 in all. */
  lemma AttemptCount(rows: seq<string>, ui: UiOracle)
    ensures |Outcomes(rows, ui)| == |CarteiraRows(rows)| + 5
  {
  }

  /**
   * Attempt n < |CarteiraRows| always finds a row: the first row whose
   * data-file equals that of the n-th Carteira row, which may be an earlier
   * duplicate, and its outcome depends only on what the UI does there.
   */
  lemma CarteiraAttemptHitsFirstCopy(rows: seq<string>, ui: UiOracle, n: nat)
    requires n < |CarteiraRows(rows)|
    ensures var id := CarteiraRows(rows)[n];
      && FirstRow(rows, SameFile(id)).Some?
      && var k := FirstRow(rows, SameFile(id)).value;
      && rows[k] == id && IsCarteira(rows[k])
      && (forall j :: 0 <= j < k ==> rows[j] != id)
      && Outcomes(rows, ui)[n] == (if ui(n, k) == Triggered then Downloaded(id) else Failed(Ui(ui(n, k).failure)))
  {
    var id := CarteiraRows(rows)[n];
    CarteiraRowsMembers(rows, id);
    var k :| 0 <= k < |rows| && rows[k] == id;
  }

  /**
   * Attempt |CarteiraRows| + j uses prefix j: it fails with RowNotFound
   * exactly when no row's data-file starts with that prefix, and otherwise
   * targets the first row that does.
   */
  lemma PrefixAttemptHitsFirstMatch(rows: seq<string>, ui: UiOracle, j: nat)
    requires j < |Arquivos|
    ensures var n := |CarteiraRows(rows)| + j;
      && (Outcomes(rows, ui)[n] == Failed(RowNotFound) <==> forall k :: 0 <= k < |rows| ==> !StartsWith(rows[k], Arquivos[j]))
      && (Outcomes(rows, ui)[n].Downloaded? ==> StartsWith(Outcomes(rows, ui)[n].id, Arquivos[j]))
      && (Outcomes(rows, ui)[n].Downloaded? ==>
            exists k :: 0 <= k < |rows| && Outcomes(rows, ui)[n].id == rows[k] && StartsWith(rows[k], Arquivos[j])
              && forall i :: 0 <= i < k ==> !StartsWith(rows[i], Arquivos[j]))
      && (FirstRow(rows, FilePrefix(Arquivos[j])).Some? ==>
            var k := FirstRow(rows, FilePrefix(Arquivos[j])).value;
            Outcomes(rows, ui)[n] == (if ui(n, k) == Triggered then Downloaded(rows[k]) else Failed(Ui(ui(n, k).failure))))
  {
    assert Plan(rows)[|CarteiraRows(rows)| + j] == FilePrefix(Arquivos[j]);
  }

  function Succeeded(os: seq<Attempt>): (bs: seq<bool>)
    ensures |bs| == |os| && forall i :: 0 <= i < |os| ==> bs[i] == os[i].Downloaded?
  {
    seq(|os|, i requires 0 <= i < |os| => os[i].Downloaded?)
  }

  /**
   * Failure isolation: when attempt f is the only one that fails, every
   * other attempt is still made and succeeds, so N - 1 of the N attempts are
   * recorded as downloaded.
   */
  lemma OneFailingAttempt(rows: seq<string>, ui: UiOracle, f: nat)
    requires f < |Plan(rows)|
    requires FirstRow(rows, Plan(rows)[f]).None? || ui(f, FirstRow(rows, Plan(rows)[f]).value) != Triggered
    requires forall n :: 0 <= n < |Plan(rows)| && n != f ==>
      FirstRow(rows, Plan(rows)[n]).Some? && ui(n, FirstRow(rows, Plan(rows)[n]).value) == Triggered
    ensures CountTrue(Succeeded(Outcomes(rows, ui))) == |Outcomes(rows, ui)| - 1
  {
    OneFailureCostsOne(Succeeded(Outcomes(rows, ui)), f);
  }

  // --------------------------------------------- the download task, lines 101-169

  /** Why the download task stops: no dated folder, or no file row appeared (the wait for tr[data-file] times out). */
  datatype TaskError = NoFolderFound | NoFileRows

  /** Resolve the folder, open it, wait for its rows, then run both loops. */
  function Acquire(links: seq<FolderResolver.Candidate>, rowsAt: string -> seq<string>, ui: UiOracle)
    : Result<(FolderResolver.Folder, seq<Attempt>), TaskError>
  {
    match FolderResolver.Resolve(links)
    case Failure(_) => Failure(NoFolderFound)
    case Success(f) =>
      if rowsAt(f.href) == [] then Failure(NoFileRows) else Success((f, Outcomes(rowsAt(f.href), ui)))
  }

  method AcquireFiles(links: seq<FolderResolver.Candidate>, rowsAt: string -> seq<string>, ui: UiOracle)
    returns (r: Result<(FolderResolver.Folder, seq<Attempt>), TaskError>)
    ensures r == Acquire(links, rowsAt, ui)
  {
    var pasta := FolderResolver.ResolveFolder(links);
    if pasta.Failure? {
      return Failure(NoFolderFound);
    }
    var rows := rowsAt(pasta.value.href);
    if rows == [] {
      return Failure(NoFileRows);
    }
    var attempts := DownloadRows(rows, ui);
    r := Success((pasta.value, attempts));
  }

  /** With no dated folder the task raises before any folder is opened or any download attempted. */
  lemma NoFolderNoDownloads(links: seq<FolderResolver.Candidate>, rowsAt: string -> seq<string>, ui: UiOracle)
    ensures Acquire(links, rowsAt, ui) == Failure(NoFolderFound)
        <==> forall c :: c in links ==> FolderResolver.LabelDate(c.text) == None
  {
    FolderResolver.ResolveFailsIffNoneAccepted(links);
  }

  /** Otherwise the attempts run over the rows of the folder Resolve selected, one per planned query. */
  lemma AcquireUsesSelectedFolder(links: seq<FolderResolver.Candidate>, rowsAt: string -> seq<string>, ui: UiOracle)
    requires Acquire(links, rowsAt, ui).Success?
    ensures var (f, attempts) := Acquire(links, rowsAt, ui).value;
      && FolderResolver.Resolve(links) == Success(f)
      && rowsAt(f.href) != []
      && |attempts| == |CarteiraRows(rowsAt(f.href))| + 5
      && attempts == Outcomes(rowsAt(f.href), ui)
  {
  }
}
