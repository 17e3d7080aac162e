/**
 * The extraction fallback chain of the installer: `unzip_file`, then
 * ZipArchive, then PclZip, then the system `unzip` command, with the
 * decision whether the downloaded archive is kept for inspection or
 * deleted. `install_from_github` and `ajax_install_from_github` run the same
 * chain; they differ in how a failure is reported and, as written, in
 * whether a failed archive is cleaned up. The extractors themselves are
 * foreign code; what each of them answers is an input here.
 */
module Extraction {
  import opened Results

  /** The four extraction strategies, in the order the chain tries them. */
  datatype Strategy = UnzipFile | ZipArchiveExtract | PclZipExtract | SystemUnzip

  /** What the environment answers to each question the chain asks. */
  datatype Environment = Environment(
    unzipFileOk: bool,        // `unzip_file` returned no WP_Error
    unzipFileError: string,   // the message of its WP_Error otherwise
    fileExists: bool,         // `file_exists($download_file)`
    fileSize: int,            // `filesize($download_file)`
    zipArchiveClass: bool,    // `class_exists('ZipArchive')`
    checkconsOpenOk: bool,    // `$zip->open($file, ZipArchive::CHECKCONS) === TRUE`
    zipExtractOk: bool,       // `$zip->extractTo($destination)`
    pclZipOk: bool,           // `$archive->extract(...) !== 0`
    execExists: bool,         // `function_exists('exec')`
    unzipCommandOk: bool      // the `unzip` command returned 0
  )

  /** Whether a strategy, when it runs, extracts the package. */
  function Succeeds(env: Environment, s: Strategy): bool {
    match s
    case UnzipFile => env.unzipFileOk
    case ZipArchiveExtract => env.zipExtractOk
    case PclZipExtract => env.pclZipOk
    case SystemUnzip => env.unzipCommandOk
  }

  /** The handler running the chain: `ajax_install_from_github` or `install_from_github`. */
  datatype Caller = Ajax | Direct

  /** How a failed chain is reported: a returned `WP_Error`, or `wp_send_json_error`, which ends the request. */
  datatype Failure = Returned(error: WpError) | JsonError(message: string)

  /** Whether some strategy of the chain extracts the package. */
  function ChainUnzipped(env: Environment): bool {
    env.unzipFileOk ||
    (env.fileExists &&
     ((env.zipArchiveClass && env.checkconsOpenOk && env.zipExtractOk) ||
      (env.fileSize > 100 && (env.pclZipOk || (env.execExists && env.unzipCommandOk)))))
  }

  /** Whether the archive is kept for inspection: the CHECKCONS open failed. */
  function KeepsArchive(env: Environment): bool {
    !env.unzipFileOk && env.fileExists && env.zipArchiveClass && !env.checkconsOpenOk
  }

  /**
   * Whether the archive is deleted, as written. In the AJAX handler the
   * failure branch calls `wp_send_json_error` before its `unlink`, and that
   * call never returns, so a failed archive is never deleted there.
   */
  function ArchiveUnlinkedAsWritten(caller: Caller, env: Environment): (r: bool)
    ensures r ==> !KeepsArchive(env) && env.fileExists
    ensures caller == Ajax && !ChainUnzipped(env) ==> !r
    ensures caller == Direct || ChainUnzipped(env) ==> (r <==> ArchiveUnlinked(env))
  {
    !KeepsArchive(env) && env.fileExists && (caller == Direct || ChainUnzipped(env))
  }

  /** Whether the archive is deleted when every branch cleans up before it answers: kept only for inspection. */
  function ArchiveUnlinked(env: Environment): bool {
    !KeepsArchive(env) && env.fileExists
  }

  /**
   * As written, the AJAX handler leaves a failed archive on disk that is not
   * kept for inspection, where `install_from_github` deletes it.
   */
  lemma AjaxFailureLeavesArchive(env: Environment)
    requires !ChainUnzipped(env) && env.fileExists && !KeepsArchive(env)
    ensures !ArchiveUnlinkedAsWritten(Ajax, env)
    ensures ArchiveUnlinkedAsWritten(Direct, env)
  {
  }

  /** A concrete case: `unzip_file` fails on a 50-byte file and ZipArchive is missing. */
  lemma SmallBrokenArchiveStaysAsWritten()
    ensures var env := Environment(false, "Incompatible Archive.", true, 50, false, false, false, false, true, false);
      !ChainUnzipped(env) && !KeepsArchive(env) && !ArchiveUnlinkedAsWritten(Ajax, env) && ArchiveUnlinked(env)
  {
  }

  /**
   * With the cleanup before the answer, both handlers delete the archive in
   * the same cases, whatever the outcome of the chain: exactly when it
   * exists and is not kept for inspection.
   */
  lemma CleanupSameForBothHandlers(env: Environment)
    ensures ArchiveUnlinked(env) == ArchiveUnlinkedAsWritten(Direct, env)
    ensures ArchiveUnlinked(env) <==> env.fileExists && !(!env.unzipFileOk && env.zipArchiveClass && !env.checkconsOpenOk)
  {
  }

  /**
   * The strategies of the chain, shared by both handlers. `attempts` lists
   * the strategies that ran, in order; `unzipped` is whether the package
   * ended up extracted; `keepTempFile` whether the archive is kept for
   * inspection.
   */
  method RunChain(env: Environment) returns (unzipped: bool, keepTempFile: bool, attempts: seq<Strategy>)
    // Which strategies run
    ensures |attempts| >= 1 && attempts[0] == UnzipFile
    ensures ZipArchiveExtract in attempts <==>
      !env.unzipFileOk && env.fileExists && env.zipArchiveClass && env.checkconsOpenOk
    ensures PclZipExtract in attempts <==>
      !env.unzipFileOk && env.fileExists && env.fileSize > 100
      && !(ZipArchiveExtract in attempts && env.zipExtractOk)
    ensures SystemUnzip in attempts <==> PclZipExtract in attempts && !env.pclZipOk && env.execExists
    // Each strategy runs only after every earlier one failed, and any success counts
    ensures forall i :: 0 <= i < |attempts| - 1 ==> !Succeeds(env, attempts[i])
    ensures unzipped <==> Succeeds(env, attempts[|attempts| - 1])
    ensures unzipped == ChainUnzipped(env)
    // The archive is kept only when the CHECKCONS open failed, even if a later strategy worked
    ensures keepTempFile == KeepsArchive(env)
  {
    unzipped := env.unzipFileOk;
    attempts := [UnzipFile];
    keepTempFile := false;
    if !unzipped {
      if env.fileExists {
        if env.zipArchiveClass {
          if env.checkconsOpenOk {
            attempts := attempts + [ZipArchiveExtract];
            if env.zipExtractOk {
              unzipped := true;
            }
          } else {
            keepTempFile := true;
          }
        }
        if env.fileSize > 100 && !unzipped {
          attempts := attempts + [PclZipExtract];
          if env.pclZipOk {
            unzipped := true;
          } else if env.execExists {
            attempts := attempts + [SystemUnzip];
            if env.unzipCommandOk {
              unzipped := true;
            }
          }
        }
      }
    }
  }

  /**
   * The chain and its cleanup, as `caller` runs them: whether the package
   * was extracted and the archive kept, as `RunChain` decides; whether the
   * archive is deleted (`unlinked`); and how a failed chain is reported
   * (`failure`).
   */
  method ExtractPackage(env: Environment, caller: Caller)
    returns (unzipped: bool, keepTempFile: bool, unlinked: bool, failure: Option<Failure>)
    ensures unzipped == ChainUnzipped(env)
    ensures keepTempFile == KeepsArchive(env)
    // The archive is deleted when present and not kept, except after an AJAX failure
    ensures caller == Direct || unzipped ==> (unlinked <==> !keepTempFile && env.fileExists)
    ensures caller == Ajax && !unzipped ==> !unlinked
    ensures unlinked == ArchiveUnlinkedAsWritten(caller, env)
    ensures failure.Some? <==> !unzipped
    ensures failure.Some? && caller == Direct ==>
      failure.value == Returned(WpError("unzip_error", "Failed to unpack package: " + env.unzipFileError, None))
    ensures failure.Some? && caller == Ajax ==>
      failure.value == JsonError("Failed to unpack package: " + env.unzipFileError + ". Please check your GitHub repository structure.")
  {
    var attempts;
    unzipped, keepTempFile, attempts := RunChain(env);
    failure := None;
    unlinked := false;
    if !unzipped {
      match caller
      case Direct =>
        unlinked := !keepTempFile && env.fileExists;
        failure := Some(Returned(WpError("unzip_error", "Failed to unpack package: " + env.unzipFileError, None)));
      case Ajax =>
        // `wp_send_json_error` ends the request: the cleanup after it never runs
        failure := Some(JsonError("Failed to unpack package: " + env.unzipFileError + ". Please check your GitHub repository structure."));
    } else {
      unlinked := !keepTempFile && env.fileExists;
    }
  }
}
