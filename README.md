# DD GitHub Updates — a verified model of its core

DD GitHub Updates is a WordPress plugin that installs and updates themes and
plugins straight from GitHub repositories. This project models in Dafny the
parts of it that hold real logic, and proves properties of the model:

- **The installer** (`includes/class-dd-github-installer.php`).
  - The upgrader source filter `maybe_restructure_github_package`. It decides
    whether a directory looks like a GitHub download, settles the package
    type and derives a slug from the directory name.
  - `restructure_flat_repository`, which sorts an extracted package into
    flat, nested-correct, nested-misnamed or unrecognised. It then rewrites
    the tree through a staging directory so that the source holds one
    directory named after the slug.
  - The helpers `copy_dir`, `recursive_copy` and `recursive_rmdir`.
  - The four-step extraction fallback chain.
- **The GitHub API client** (`includes/class-dd-github-api.php`).
  - The error mapping of `api_request`.
  - The synthetic release `get_latest_release` builds from the default branch.
  - The download-URL choice of `get_download_url`.
  - The ZIP check of `is_valid_zip`.
  - The header, redirect and acceptance rules of `download_file`.
- **The admin screen** (`admin/class-dd-github-updates-admin.php`).
  - The token format check of `sanitize_settings`.
  - The field whitelist of `sanitize_repositories`.
  - The list updates behind `ajax_add_repository` and `ajax_remove_repository`.

## How the model is built

The filesystem is an in-memory tree: `FileTree.Node` is either
`File(contents)` or `Dir(entries)`, and a path is a sequence of names.

- The `Filesystem.FileSystem` class holds the current tree. Its methods are
  the calls the plugin makes on `$wp_filesystem` and on PHP's file
  functions, each specified by `Get`, `Put` and `Delete`.
- Its `denied` set lists the paths where `mkdir` is refused, so every
  `mkdir_failed` branch is reachable.
- The copy helpers are recursive methods. Each is proved against a pure
  description of the resulting tree: `CopyDirResult`, `CopiedInto` and
  `MakePath`.
- `Installer.Restructure` and `Installer.MaybeRestructure` are imperative
  methods. Each is proved equal to a ghost specification
  (`Installer.Restructured`, `Installer.MaybeRestructured`) that returns the
  result and the new tree, and the properties of the restructure are lemmas
  about those specifications.

Module by module:

- `Results`: `Option`, `Result` and `WpError`.
- `Text`: PHP string helpers: `empty()`, `strpos`, `explode`/`implode`,
  `str_replace`, and the pattern `^v?\d+(\.\d+)*$`.
- `FileTree`: the tree and its path algebra.
- `Filesystem`: the copy specifications and the `FileSystem` class.
- `Layout`: package classification and the keep-list of the flat restructure.
- `Slug`: GitHub directory-name detection and slug derivation.
- `Installer`: the copy/remove helpers, the restructure and the source filter.
- `Extraction`: the unzip fallback chain.
- `GithubApi`: the API client.
- `Admin`: settings and the repository list.

Several things are parameters of the model rather than computed by it:

- the WordPress helpers `sanitize_file_name`, `sanitize_text_field` and
  `get_file_data`'s `Plugin Name` lookup;
- HTTP answers and decoded JSON records;
- the results of the foreign extractors and of ZipArchive.

## Model

| member | source | states |
|---|---|---|
| Installer.CopyDir | includes/class-dd-github-installer.php:1307-1325 | `copy_dir` leaves the tree equal to `CopyDirResult`: every entry of the source directory is copied into the destination, subdirectories recursively. Nothing existing is overwritten, a refused `mkdir` skips that subtree, and a missing source copies nothing. |
| Installer.CopyEntry | includes/class-dd-github-installer.php:1312-1321 | One iteration of the copy loop: a directory entry becomes `mkdir` plus `copy_dir`, a file becomes a non-overwriting `copy`. The tree after it is the tree with that one entry merged in. |
| Installer.RecursiveCopy | includes/class-dd-github-installer.php:1333-1348 | `recursive_copy` with a loop that visits every entry. The destination is first created with `wp_mkdir_p`, then every entry of the source is copied with PHP's overwriting `copy`. The resulting tree is `CopiedInto(MakePath(..), src, dst, overwrite)`. |
| Installer.RecursiveRmdir | includes/class-dd-github-installer.php:1355-1369 | `recursive_rmdir` removes a directory and everything below it. A path that is not a directory leaves the tree unchanged. |
| Installer.ReaddirNamesAsWritten | includes/class-dd-github-installer.php:1336-1337 | The names the `while ($file = readdir(..))` loop hands to its body: it stops at the first name PHP treats as false ("0"), and the body skips "." and "..". |
| Installer.ReaddirNames | includes/class-dd-github-installer.php:1336-1337 | The names a loop that stops only at the end of the listing hands to its body: every name except "." and "..". |
| Installer.ReaddirNamesComplete | includes/class-dd-github-installer.php:1336-1346 | Every real entry of a listing reaches the body of the corrected loop. |
| Installer.ReaddirStopsAtZero | includes/class-dd-github-installer.php:1336 | A concrete listing ".", "..", "0", "a" where the loop as written copies nothing at all. |
| Installer.FindPluginHeader | includes/class-dd-github-installer.php:1153-1171 | The answer is true exactly when some `.php` file directly in the subdirectory contains `Plugin Name:`. |
| Installer.ListEntries | includes/class-dd-github-installer.php:1093-1109 | The first listing loop returns exactly the subdirectories (without repeats) and exactly the other entries with extension `php`. |
| Installer.FindRootPluginHeader | includes/class-dd-github-installer.php:1118-1130 | The root `php` files are read until one holds `Plugin Name:`. The answer is true exactly when one does. |
| Installer.ScanSubdirectories | includes/class-dd-github-installer.php:1133-1175 | The nested-structure loop sets "nested" exactly when some subdirectory holds the marker, and "correct" exactly when the one named after the slug does. |
| Installer.ClassifyLayout | includes/class-dd-github-installer.php:1087-1175 | The three flags `$is_flat`, `$has_nested_structure` and `$has_correct_structure` equal `Layout.IsFlat`, `HasNested` and `HasCorrect`. The directory list is the set of subdirectories, without repeats. |
| Installer.RestructureSlug | includes/class-dd-github-installer.php:1081-1085 | The slug is never empty. It is the sanitised slug, or `github-theme`/`github-plugin` when sanitising leaves it empty. |
| Installer.TempDir | includes/class-dd-github-installer.php:1189 | The working directory `$destination-restructure-temp` is a sibling of the destination. |
| Installer.Staged | includes/class-dd-github-installer.php:1184-1204 | What is staged under the slug: for a misnamed package, its only subdirectory; otherwise a directory holding the kept root entries. |
| Installer.Restructured | includes/class-dd-github-installer.php:1068-1298 | The specification of the restructure: nested-correct returns the source untouched; a refused `mkdir` of the working directory or of `temp/slug` is a `mkdir_failed` error that leaves the tree as it was; otherwise the staged package replaces the source's contents. |
| Installer.CopyKept | includes/class-dd-github-installer.php:1247-1276 | The copy loop of the flat restructure copies exactly the entries `Layout.Kept` admits, directories by `mkdir` plus `copy_dir` and files by `copy`. |
| Installer.MoveBack | includes/class-dd-github-installer.php:1206-1214 | The shared tail `rmdir(source)`, `mkdir(source)`, `copy_dir(temp, source)`, `rmdir(temp)` leaves the source holding the staged entries and the working directory gone. |
| Installer.Restructure | includes/class-dd-github-installer.php:1068-1298 | `restructure_flat_repository`: the returned value and the new tree are exactly those of `Restructured` for the same tree, slug and type. |
| Installer.RestructureWithoutDenials | includes/class-dd-github-installer.php:1184-1287 | When no `mkdir` is refused, a restructure that acts leaves the source with exactly one entry, the slug. Its contents are the only subdirectory (misnamed) or the kept root entries (flat or unrecognised). |
| Installer.RestructureFrame | includes/class-dd-github-installer.php:1068-1298 | Every path outside the source reads the same after the restructure, whatever its outcome. |
| Installer.RestructureSettles | includes/class-dd-github-installer.php:1133-1181 | Running the restructure again on a package it settled returns the source and changes nothing. Settled means a flat theme whose slug is not `style.css`, a flat plugin with a main file that is not hidden, or a misnamed package (not a theme slugged `style.css`). Stated when no `mkdir` inside the source or the working directory is refused, and the working directory is absent, placeable and disjoint from the source. |
| Installer.UnrecognisedStaysUnrecognised | includes/class-dd-github-installer.php:1220-1287 | A package whose root and subdirectories have no recognised marker is wrapped under the slug, and the new root still has no marker, so every later run wraps it again. Stated when no `mkdir` inside the source or the working directory is refused, and the working directory is absent, placeable and disjoint from the source. |
| Installer.DetectedType | includes/class-dd-github-installer.php:1466-1502 | The type the filter settles on. The `type` argument comes first; when it is not set at all, the skin option and then the upgrader class; when the type is still empty, `style.css` and then a root `.php` file with a plugin header. |
| Installer.EmptyTypeArgumentHidesUpgrader | includes/class-dd-github-installer.php:1467-1483 | A `type` argument that is set but empty hides the skin option and the upgrader class: only the files decide. |
| Installer.SkinOptionBeforeUpgraderClass | includes/class-dd-github-installer.php:1470-1483 | With no `type` argument, a non-empty skin `type` option is the type whatever the upgrader class and the files. With no skin option, a theme upgrader gives `theme` and a plugin upgrader gives `plugin`. |
| Installer.DetectedTypeFromFiles | includes/class-dd-github-installer.php:1485-1502 | With no type from the arguments or the upgrader, the type is `theme` if the root holds `style.css`, else `plugin` if a globbed `.php` file has a header, else empty. |
| Installer.DetectType | includes/class-dd-github-installer.php:1466-1502 | The detection method, including its `glob` loop, returns `DetectedType` of the directory it inspects. |
| Installer.MaybeRestructured | includes/class-dd-github-installer.php:1443-1551 | The specification of the source filter: a path that is not a directory, or a directory it does not handle, is returned as it is; otherwise the restructure runs with the working directory next to `$remote_source`. |
| Installer.TempDirDisjoint | includes/class-dd-github-installer.php:1189 | The working directory next to `$remote_source` never overlaps a source inside `$remote_source`. |
| Installer.MaybeRestructure | includes/class-dd-github-installer.php:1443-1551 | `maybe_restructure_github_package`: the returned value and the new tree are exactly those of `MaybeRestructured`. |
| Installer.HandlesSource | includes/class-dd-github-installer.php:1454-1466 | The filter always handles the plugin's own updates (`github_update` true). Any other directory it handles has a dash or a dot in its name. |
| Installer.ChosenSlug | includes/class-dd-github-installer.php:1468-1540 | A non-empty `slug` argument is used as it is, unsanitised. Otherwise the slug is `sanitize_file_name` of a dot-free run of the directory name. |
| Installer.PlainDirectoryPassesThrough | includes/class-dd-github-installer.php:1454-1465 | A directory that is not one of the plugin's own updates and whose name has neither a dash nor a dot is returned untouched. |
| Installer.CommitDownloadSlug | includes/class-dd-github-installer.php:1504-1540 | For a commit download `owner-repo-hash` without a slug argument, the filter uses the sanitised repository name. |
| Layout.KindOf | includes/class-dd-github-installer.php:1112-1118 | The type is a theme exactly when it is `'theme'`, and a plugin exactly when it is `'plugin'`. |
| Layout.PhpExtensionEndsWith | includes/class-dd-github-installer.php:1106 | A name whose `pathinfo` extension is `php` ends with `.php`. |
| Layout.Classify | includes/class-dd-github-installer.php:1087-1184 | The package is nested-correct exactly when `$has_correct_structure` holds. It is misnamed only when the root is not flat, its single subdirectory holds the marker, and that subdirectory is not named after the slug. |
| Layout.KeptExactly | includes/class-dd-github-installer.php:1250-1258 | An entry is kept exactly when it is not hidden, not `node_modules` or `vendor`, and not one of `README.md`, `LICENSE`, `CHANGELOG.md`, `composer.json`, `package.json`. Matching is case-sensitive, and the important-file list never rescues one of these. |
| Layout.KeepEntries | includes/class-dd-github-installer.php:1248-1276 | The kept root entries are exactly those `Kept` admits, unchanged. |
| Layout.FlatThemeBecomesCorrect | includes/class-dd-github-installer.php:1112-1149 | A flat theme, once restructured under a slug other than `style.css`, classifies as nested-correct. |
| Layout.FlatPluginBecomesCorrect | includes/class-dd-github-installer.php:1118-1168 | A flat plugin with a main file that is not hidden, once restructured, classifies as nested-correct. |
| Layout.MisnamedBecomesCorrect | includes/class-dd-github-installer.php:1184-1217 | A misnamed package moved under the slug classifies as nested-correct, unless it is a theme whose slug is `style.css` (the new root would then look flat). |
| Layout.ClassifyAsWritten | includes/class-dd-github-installer.php:1133-1175 | The classification as PHP runs it: nested-correct exactly when `HasCorrectAsWritten` holds, that is when the slug directory holds the marker and the slug is not a string PHP turns into an integer key. It agrees with `Classify` for every other slug. |
| Layout.NumericSlugNestsAgainAsWritten | includes/class-dd-github-installer.php:1093-1287 | For an integer-like slug, a package that `Classify` calls nested-correct is restructured again as written whenever the root has two or more directories. A package just wrapped under such a slug is restructured again too, so it is nested one level deeper on every run. |
| Layout.NumberIsIntegerKey | includes/class-dd-github-installer.php:1146 | The slug `2048` becomes an integer array key. |
| Slug.StripStepsDropSuffix | includes/class-dd-github-installer.php:1510-1512 | Each of the three `preg_replace` steps either leaves the name alone or removes exactly its last dash and last segment. |
| Slug.DotStep | includes/class-dd-github-installer.php:1515-1518 | After the dot step the slug contains no dot. |
| Slug.DashStepTakesLastSegment | includes/class-dd-github-installer.php:1521-1529 | When the last segment is neither `master`/`main` nor a version number, the result is the text after the last dash, and it has no dash. |
| Slug.DashStepDropsFirstSegment | includes/class-dd-github-installer.php:1530-1534 | Otherwise the result is everything after the first dash. |
| Slug.DeriveSlug | includes/class-dd-github-installer.php:1505-1536 | The derived slug never contains a dot, and it is a contiguous run of the directory name: every step keeps a prefix (the three `preg_replace` calls) or a suffix (the dot and dash steps) of what it is given. |
| Slug.DeriveFromHashSuffix | includes/class-dd-github-installer.php:1505-1536 | `owner-repo-hash` gives `repo` (for example `acme-widgets-a1b2c3d` gives `widgets`). |
| Slug.DeriveFromVersionSuffix | includes/class-dd-github-installer.php:1505-1536 | `repo-version` gives `repo` when the version is not also hash-like (for example `widgets-v2.3.1` gives `widgets`). |
| Slug.DeriveFromOwnerDotRepo | includes/class-dd-github-installer.php:1514-1518 | `owner.repo` gives `repo` (for example `acme.widgets` gives `widgets`). |
| Slug.HashNameIsGithubDirName | includes/class-dd-github-installer.php:1455 | A commit download name is recognised by its hash suffix. |
| Slug.VersionNameIsGithubDirName | includes/class-dd-github-installer.php:1458 | A release download name `repo-vVERSION` is recognised by its `-v`. |
| Slug.OwnerDotRepoIsGithubDirName | includes/class-dd-github-installer.php:1459 | An `owner.repo` name made of word characters is recognised. |
| Slug.IsGithubDirName | includes/class-dd-github-installer.php:1455-1459 | A name is taken for a GitHub download only when it holds a dash or a dot: a plain name such as `widgets` matches none of the five patterns. |
| Extraction.RunChain | includes/class-dd-github-installer.php:593-684 | ZipArchive extraction runs only after `unzip_file` failed and the CHECKCONS open succeeded. PclZip runs only for a file over 100 bytes after every earlier attempt failed, and `unzip` only after PclZip failed with `exec` available. Any success counts, and the result is extracted exactly when `ChainUnzipped` holds. The archive is kept exactly when the CHECKCONS open failed, even if a later step succeeds. |
| Extraction.ExtractPackage | includes/class-dd-github-installer.php:182-289 | The chain run by either handler, with its cleanup as written. After a success, and after any failure in `install_from_github`, the archive is deleted exactly when it exists and is not kept. After a failure in `ajax_install_from_github` it is never deleted, because `wp_send_json_error` ends the request before the `unlink`. A failure is the returned `unzip_error` "Failed to unpack package: " plus the `unzip_file` message, or, in the AJAX handler, that JSON message followed by ". Please check your GitHub repository structure.". |
| Extraction.ArchiveUnlinkedAsWritten | includes/class-dd-github-installer.php:273-289 | The archive is deleted only when it exists and is not kept. The AJAX handler never deletes it after a failure. Otherwise the deletion agrees with the intended cleanup. |
| Extraction.AjaxFailureLeavesArchive | includes/class-dd-github-installer.php:273-281 | After a failed chain, an archive that exists and is not kept is left on disk by the AJAX handler and deleted by `install_from_github`. |
| Extraction.SmallBrokenArchiveStaysAsWritten | includes/class-dd-github-installer.php:182-281 | A concrete case: `unzip_file` fails on a 50-byte file and ZipArchive is missing. The chain fails, the archive is not kept for inspection, and the AJAX handler still leaves it on disk. |
| Extraction.CleanupSameForBothHandlers | includes/class-dd-github-installer.php:685-698 | With the cleanup before the answer, the AJAX handler deletes the archive exactly when `install_from_github` does: when it exists and the CHECKCONS open did not fail. |
| Filesystem.FileSystem.Exists | includes/class-dd-github-installer.php:1096 | `exists()` is true exactly when something is at the path. |
| Filesystem.FileSystem.IsDirectory | includes/class-dd-github-installer.php:1340 | `is_dir()` is true exactly when a directory is at the path. |
| Filesystem.FileSystem.Dirlist | includes/class-dd-github-installer.php:1093 | `dirlist()` on a directory gives its entries. On a file it gives that one file under its own name, except for a file named `0`, which PHP reads as no limit: the whole parent directory is listed. A missing path gives false, which the loops over it read as an empty listing. |
| Filesystem.FileSystem.GetContents | includes/class-dd-github-installer.php:1121 | `get_contents()` gives a file's text, or false. |
| Filesystem.FileSystem.Mkdir | includes/class-dd-github-installer.php:1190 | `mkdir()` succeeds exactly when nothing is at the path, its parent is a directory, and creation is not refused; then an empty directory is there and nothing else changes. |
| Filesystem.FileSystem.Copy | includes/class-dd-github-installer.php:1271 | `copy()` copies a file where nothing is, or (PHP's `copy`) over a file; it never replaces a directory. |
| Filesystem.FileSystem.Remove | includes/class-dd-github-installer.php:1207 | `rmdir($p, true)` removes the node at the path and everything below it. |
| Filesystem.FileSystem.Unlink | includes/class-dd-github-installer.php:1363 | `unlink()` removes a file and nothing else. |
| Filesystem.FileSystem.Rmdir | includes/class-dd-github-installer.php:1367 | `rmdir()` removes an empty directory and nothing else. |
| Filesystem.FileSystem.MkdirP | includes/class-dd-github-installer.php:1334 | `wp_mkdir_p()` leaves the tree equal to `MakePath`, and reports whether the path is now a directory. |
| Filesystem.CopyIntoEmpty | includes/class-dd-github-installer.php:1307-1325 | Copying into a fresh empty directory where no creation is refused reproduces the source exactly. |
| Filesystem.CopyIntoKeepsExisting | includes/class-dd-github-installer.php:1320 | WordPress's `copy` never overwrites: every entry the destination had is still there, and its files are untouched. |
| Filesystem.CopyIntoOverwritesFiles | includes/class-dd-github-installer.php:1343 | PHP's `copy` overwrites: after the copy, a source file sits at its name wherever the destination had no directory there. |
| Filesystem.MakePathIdempotent | includes/class-dd-github-installer.php:1334 | Running `wp_mkdir_p` twice does no more than running it once. |
| Filesystem.MakePathFrame | includes/class-dd-github-installer.php:1334 | `wp_mkdir_p` leaves every existing node away from the path unchanged. |
| GithubApi.ApiHeaders | includes/class-dd-github-api.php:49-60 | `api_request` sends the JSON Accept header and the user agent, and `Authorization: Bearer <token>` exactly when the token is not empty. |
| GithubApi.ApiRequest | includes/class-dd-github-api.php:72-115 | Only a 200 answer with a decodable body succeeds. A transport error is returned as it is. Any other status becomes `github_api_error` "GitHub API error (HTTP n): message", with the JSON message or else the reason phrase, carrying the status. An undecodable body is `github_api_error` "Invalid JSON response from GitHub API". |
| GithubApi.LatestReleaseAsWritten | includes/class-dd-github-api.php:138-171 | Unless the latest-release request failed with `github_api_error` and the repository names a default branch, the answer is passed through. In that case the result is a synthetic release with tag `main`, no assets, and the API zipball URL `.../repos/o/r/zipball/BRANCH`. |
| GithubApi.LatestRelease | includes/class-dd-github-api.php:143-167 | The same, with the synthetic release pointing at the branch archive `https://github.com/o/r/archive/refs/heads/BRANCH.zip`. |
| GithubApi.FirstZipAsset | includes/class-dd-github-api.php:252-260 | The result is the download URL of the first asset that has one and whose name contains `.zip` or whose content type is `application/zip`. There is a result exactly when such an asset exists. |
| GithubApi.RewriteZipball | includes/class-dd-github-api.php:261-288 | A URL that does not both contain `api.github.com` and lack `.zip` is returned verbatim. |
| GithubApi.HostReplaced | includes/class-dd-github-api.php:270-274 | In an API URL whose path does not itself contain `api.github.com/repos/`, that string is replaced once, giving `https://github.com/` followed by the path. |
| GithubApi.ZipballReplaced | includes/class-dd-github-api.php:277-284 | `/zipball/` after a prefix in which it starts nowhere, and before a ref without a slash, occurs in the URL and is replaced once, by `/archive/refs/tags/`. |
| GithubApi.ZipballRewrittenToTag | includes/class-dd-github-api.php:261-288 | The rewrite turns the API zipball URL of a ref into the tag archive URL `https://github.com/o/r/archive/refs/tags/REF.zip`, for every owner, repository and ref without a slash, an owner without a dot, neither name equal to `zipball`, and a URL without `.zip`. Dotted refs such as `v1.2.3` and dotted repository names qualify. |
| GithubApi.ExplicitVersionUrl | includes/class-dd-github-api.php:308-325 | An explicit version gives the tag archive when it matches `^v?\d+(\.\d+)*$` and the branch archive otherwise. No API answer has any effect. |
| GithubApi.DottedVersionIsTag | includes/class-dd-github-api.php:308-315 | A version such as `1.4.0` (three digit groups) gives the tag archive. |
| GithubApi.AssetWins | includes/class-dd-github-api.php:252-260 | The first ZIP asset wins over the zipball URL and the tag. |
| GithubApi.ReleaseFallbackOrder | includes/class-dd-github-api.php:261-305 | Without a ZIP asset, the non-empty zipball URL (rewritten) comes first, then the tag archive. A release with neither gives `github_api_error` "No download URL found in release information", and only then. |
| GithubApi.NoReleaseUsesDefaultBranch | includes/class-dd-github-api.php:226-249 | When no release can be had, a failing repository lookup is returned; otherwise the result is the archive of its default branch, or of `main` when it names none. |
| GithubApi.DownloadUrlFrom | includes/class-dd-github-api.php:221-326 | The specification of `get_download_url`: it fails exactly when no version is given and either both the release and the repository lookups fail, or the release has no ZIP asset, no non-empty zipball URL and no non-empty tag. When both lookups fail, the repository lookup's error is returned. |
| GithubApi.DownloadUrlAsWritten | includes/class-dd-github-api.php:138-326 | `get_download_url` fed by the synthetic release as written. It fails exactly when the specification does, and it agrees with it whenever a version is given or the branch fallback does not apply. |
| GithubApi.DownloadUrl | includes/class-dd-github-api.php:221-326 | `get_download_url` fed by the corrected synthetic release equals the specification for every input. |
| GithubApi.ZipUrlNotRewritten | includes/class-dd-github-api.php:268 | A URL ending in `.zip` is never rewritten. |
| GithubApi.BranchReleaseDownloadsBranch | includes/class-dd-github-api.php:143-167 | With the corrected synthetic release, a repository without releases downloads the archive of its default branch. |
| GithubApi.BranchReleaseDownloadsTagAsWritten | includes/class-dd-github-api.php:143-167 | As written, the same repository is sent to the archive of a tag named like its default branch, a different URL. |
| GithubApi.ReadSignature | includes/class-dd-github-api.php:516 | `fread($h, 4)` gives the first four bytes, or all of a shorter file. |
| GithubApi.IsValidZip | includes/class-dd-github-api.php:477-524 | A missing or unreadable file is invalid. With ZipArchive, the CHECKCONS result decides. Without it, the file is valid exactly when it can be opened and starts with `PK\x03\x04`, the local file header signature of section 4.3.7 of PKWARE's APPNOTE.TXT. |
| GithubApi.DownloadHeaders | includes/class-dd-github-api.php:340-353 | `download_file` sends `Authorization: Bearer <token>` (section 2.1 of RFC 6750) exactly when the token is not empty and the URL contains `github.com`. It sends `Accept: application/octet-stream` exactly when, in addition, the URL contains `api.github.com`. |
| GithubApi.ResolveRedirect | includes/class-dd-github-api.php:356-391 | The HEAD step. An error is returned as it is. A 3xx with a non-empty location moves the URL there and drops the binary Accept when the new URL leaves the API. Any status other than 3xx and 200 is `github_api_error` "GitHub API returned status code: n". |
| GithubApi.FetchAndCheck | includes/class-dd-github-api.php:393-465 | A failed GET is retried once. With no content, the original error is returned; a failed save is `save_failed`. A non-200 GET is `download_failed` naming the code. The file is then checked: missing or under 100 bytes is `download_failed`, failing `is_valid_zip` is `invalid_zip`, and otherwise the temp file path is returned. |
| GithubApi.DownloadFile | includes/class-dd-github-api.php:332-469 | The whole of `download_file`. The headers and the final URL obey the rules above, the HEAD step runs only for API URLs, and the result is the temp path exactly when every step lets the file through. |
| Admin.SanitizeSettings | admin/class-dd-github-updates-admin.php:114-134 | Only `github_token` is kept, sanitised. Input without it gives an empty array. A token failing the format check raises the notice exactly then, and is stored all the same. |
| Admin.PersonalTokenPasses | admin/class-dd-github-updates-admin.php:122 | `ghp_` followed by 36 letters or digits passes the format check. |
| Admin.WrongLengthTokenFails | admin/class-dd-github-updates-admin.php:122-130 | A non-empty token whose length is not 40 raises the notice and is still stored. |
| Admin.WhitelistEntry | admin/class-dd-github-updates-admin.php:146-167 | An entry keeps exactly those of `type`, `owner`, `name`, `slug`, `file` that were present, each sanitised. |
| Admin.WhitelistIdempotent | admin/class-dd-github-updates-admin.php:146-167 | With an idempotent sanitiser, whitelisting twice is whitelisting once. |
| Admin.CopyField | admin/class-dd-github-updates-admin.php:149-151 | One `isset` step keeps the invariant that the entry holds exactly the admitted fields present in the input, each sanitised, with one more field admitted. |
| Admin.SanitizeEntry | admin/class-dd-github-updates-admin.php:147-167 | The five `isset` steps together build exactly the whitelisted entry. |
| Admin.SanitizeRepositories | admin/class-dd-github-updates-admin.php:142-172 | Non-array input gives an empty array. Otherwise every key is kept in order, each entry is whitelisted, and no other field survives. |
| Admin.AddRefusal | admin/class-dd-github-updates-admin.php:336-349 | An add is refused exactly when `type`, `owner` or `name` is empty, a theme has no slug, or a plugin has no file, with the matching message. |
| Admin.Removed | admin/class-dd-github-updates-admin.php:403-406 | `unset` plus `array_values` removes one entry: the length drops by one, the entries before the index stay, the ones after move down by one, and the multiset loses exactly that entry. |
| Admin.RemoveUndoesAdd | admin/class-dd-github-updates-admin.php:355-406 | Removing the entry just appended restores the list. |
| Admin.RemovedKeepsOrder | admin/class-dd-github-updates-admin.php:403-406 | Two remaining entries keep their relative order after a removal. |
| Admin.AddKeepsClean | admin/class-dd-github-updates-admin.php:329-364 | An entry whose fields the sanitiser leaves as they are, appended to a list that `sanitize_repositories` leaves unchanged, gives a list it still leaves unchanged. The `update_option` at line 364, which runs the callback registered at lines 86-90, therefore stores exactly the appended list. |
| Admin.RemoveKeepsClean | admin/class-dd-github-updates-admin.php:403-409 | Removing an entry from such a list keeps it unchanged by `sanitize_repositories`, so the `update_option` at line 409 stores exactly `Removed`. |
| Admin.RepositoryList.Add | admin/class-dd-github-updates-admin.php:316-367 | A refused add leaves the list unchanged. Otherwise exactly one entry with the five fields is appended at the end, and earlier entries are unchanged. |
| Admin.RepositoryList.Remove | admin/class-dd-github-updates-admin.php:372-412 | A negative index is refused, and so is one that is not present; the list is then unchanged. Otherwise the list becomes `Removed(old list, index)`. |

## Left out

- Installer.Restructure: requires the source to be a directory. `restructure_flat_repository` is called at four places, and each passes a directory:
  - includes/class-dd-github-installer.php:345 and :753 pass `$destination` only after finding `style.css` or a `.php` file in it (lines 335 and 743);
  - :938 passes what `WP_Upgrader::unpack_package` returned, after the `is_wp_error` test at 933; that is the working directory it unpacked into;
  - :1547 is reached only after the `is_dir` test at 1445.
- Installer.RecursiveCopy: requires the source to be a directory; `opendir` on anything else is not modelled. It models the loop that visits every entry; the loop as written is `ReaddirNamesAsWritten` (see Findings).
- Installer.DetectType and Installer.MaybeRestructure: `get_file_data`'s reading of the `Plugin Name` header is a parameter (`pluginName`), and so is `sanitize_file_name` (`sanitize`).
- Installer.CommitDownloadSlug, Slug.DeriveFromHashSuffix, Slug.DeriveFromVersionSuffix, Slug.DeriveFromOwnerDotRepo: the examples `acme-widgets-a1b2c3d`, `widgets-v2.3.1` and `acme.widgets` are stated for every owner, repository and suffix of the same shape rather than for those literal strings.
- GithubApi.DottedVersionIsTag: likewise stated for every three-group version rather than for the literal `1.4.0`.
- GithubApi.BranchReleaseDownloadsTagAsWritten and GithubApi.ZipballRewrittenToTag: stated for the names `RewritableRef` admits. Those are an owner, repository and branch without a slash, an owner without a dot, neither name equal to `zipball`, and an API URL without `.zip`. Outside them the searched strings can occur more than once and the rewritten URL is not pinned down.
- Regular expressions: PHP's `$` also matches before a final newline. Names and versions ending in a newline are not modelled.
- The orchestrators `ajax_install_from_github` and `install_from_github` (repository lookup, glob over the live plugins and themes roots, activation, theme switching): only their extraction chain and its cleanup are modelled. The two run the same chain; the AJAX handler reports a failure as a JSON message and, as written, never reaches its cleanup (see Findings).
- Extraction.ExtractPackage: `unzip_file`, ZipArchive, PclZip and `exec('unzip')` are foreign code; their answers are inputs.
- `process_package` and `add_dir_to_zip`: never called.
- The hook wiring in `includes/class-dd-github-updates.php`, the bootstrap file and `uninstall.php`.
- Network, JSON decoding and disk: HTTP answers, decoded records and the state of the downloaded file are inputs. `get_download_url` is modelled with both repository lookups returning the same record.
- GithubApi.FetchAndCheck: a file saved by the `file_get_contents` retry is taken to be present, readable and openable with the retried content; the temporary file name (`uniqid`) is a parameter.
- `get_releases`, `get_repository`, `search_repositories` and `test_connection`: thin wrappers over `api_request`.
- The descriptive members of the synthetic release (`body`, `published_at`) are not modelled; the download logic never reads them.
- Paths are sequences of names: trailing slashes, `..`, symbolic links and file permissions are not modelled. A refused `mkdir` is the only filesystem failure.
- Directory listings are maps: the order of `dirlist` does not affect any modelled result, except the `readdir` order in the finding below, which is a parameter there.
- Nonce and capability checks, `wp_send_json_*`, the settings and page rendering, `get_option`/`update_option` (the stored list is the field of `Admin.RepositoryList`), `intval` (the index arrives as an integer) and all `error_log` diagnostics.
- Admin.RepositoryList.Remove: the stored option is taken to be a list indexed from 0, which every add and remove keeps it.
- Admin.RepositoryList.Add and Admin.RepositoryList.Remove: the field is set to the list the handler passes to `update_option`. WordPress runs the registered `sanitize_repositories` callback (admin/class-dd-github-updates-admin.php:86-90) on it before storing. `Admin.AddKeepsClean` and `Admin.RemoveKeepsClean` show that the stored list is the same whenever `sanitize_text_field` is idempotent and the list was stored through the callback. The callback is not re-run inside the methods.
- Installer.ScanSubdirectories, Installer.ClassifyLayout, Layout.Classify, Installer.Restructured, Installer.Restructure, Installer.MaybeRestructured, Installer.MaybeRestructure: they compare the subdirectory name with the slug as strings. PHP turns an integer-like name such as `2048` into an integer array key, and `$dir === $slug` is then false. For such a slug these members describe the intended behaviour, not the code as written; `Layout.ClassifyAsWritten` is the code as written (see Findings).
- Installer.RestructureSettles, Layout.FlatThemeBecomesCorrect, Layout.FlatPluginBecomesCorrect, Layout.MisnamedBecomesCorrect: proved for the corrected comparison. As written they fail for an integer-like slug (`Layout.NumericSlugNestsAgainAsWritten`).
- Layout.IsIntegerKey: follows PHP's rule for canonical decimal integer strings on a 64-bit build (`PHP_INT_MAX` is 2^63 - 1). Leading zeros, a `+` sign and `-0` stay strings.
- Layout.Kept and Layout.KeptExactly: stated with PHP 8 comparison, where `in_array` compares a string with an integer key as strings. Under PHP 7 an entry named `0` becomes the integer 0, which loosely equals `.git`; the entry is then skipped instead of kept. That PHP 7 case is not modelled.
- Installer.CopyDir: stated for a directory or a missing source, which is all its callers pass. On a file, `dirlist` lists that file, and the copy of `file/name` then fails without changing the tree; that path is not proved.

## Findings

| source | as written | input that shows it | evidently intended | confidence | as-written member | corrected member |
|---|---|---|---|---|---|---|
| includes/class-dd-github-api.php:143-167,277-284 | The synthetic release for a repository without releases carries the API zipball URL of the default branch. `get_download_url` then rewrites every `/zipball/` into `/archive/refs/tags/`, so it asks for a tag named like the branch. | Owner `acme`, repository `widgets`, no releases, default branch `main`: the URL is `https://github.com/acme/widgets/archive/refs/tags/main.zip` instead of `.../refs/heads/main.zip`. | The branch archive `https://github.com/o/r/archive/refs/heads/BRANCH.zip`, the URL the method builds itself when no release can be had. | not executed | GithubApi.BranchReleaseDownloadsTagAsWritten | GithubApi.BranchReleaseDownloadsBranch |
| includes/class-dd-github-installer.php:1336 | `while ($file = readdir($h))` ends at the first entry whose name PHP counts as false. An entry named `0` therefore stops the copy, and every entry after it is lost. | A directory holding `0` and `a`, listed in the order `.`, `..`, `0`, `a`: nothing is copied. | `while (($file = readdir($h)) !== false)`: every entry except `.` and `..` is copied. | not executed | Installer.ReaddirStopsAtZero | Installer.ReaddirNamesComplete |
| includes/class-dd-github-installer.php:1146,1165 | PHP turns an integer-like directory name such as `2048` into an integer array key. `$dir === $slug` compares that integer with the string slug and is always false, so a package correctly nested under such a slug is never recognised. | Slug `2048`; a theme whose root holds the directories `2048` (with `style.css`) and `docs`: it is restructured into `2048/2048/...`, and every later run nests it one level deeper. | `(string) $dir === $slug`: the package is recognised as nested-correct and left alone. | not executed | Layout.NumericSlugNestsAgainAsWritten | Layout.Classify |
| includes/class-dd-github-installer.php:275-280 | After a failed extraction, `ajax_install_from_github` calls `wp_send_json_error`, which ends the request, before the `unlink` that should delete the archive. The cleanup is dead code, and a failed archive stays in the temporary directory even when it is not kept for inspection. | `unzip_file` fails on a 50-byte download and ZipArchive is missing: the archive is not kept, yet it is never deleted. | Delete the archive before sending the error, as `install_from_github` does at 685-690. | not executed | Extraction.SmallBrokenArchiveStaysAsWritten | Extraction.CleanupSameForBothHandlers |
