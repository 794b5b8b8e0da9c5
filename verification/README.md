# A verified model of sys_resolver

Zainium OS keeps its system under `/overlayer` and has no `/usr`, `/bin` or `/lib` at the root.
sys_resolver is a preloaded library that makes the classic paths work: a libc call that fails with
ENOENT is tried again below four ordered roots. This project models what that does to a file
system over whole runs, and to the programs that get started, and proves when a redirected call
means what its caller asked for.

`dafny verify dfyconfig.toml` checks the project.

## How it is built

One `char` stands for one byte, and a path is either its text (as the library handles it) or, once
absolute and without empty, `.` and `..` parts, the list of its names (`Paths.Path`). A file tree
is a map from such lists to nodes (`FileTree.Tree`); `FileTree.Namei` is the kernel's walk, one
directory at a time. A real libc call with its other arguments fixed is a function from a tree and
a path to a result, a tree and an `errno` (`Fallback.Call`); what is assumed about it is a predicate
saying no more than the man page does (`Quiet`, `Answers`, `Removes`, `Places`, `Makes`, `Binds`).
`Kernel` and `Rendezvous` define `unlink`, `mkdir`, `rename`, `link`, `symlink`, `bind` and `connect`
on the tree outright, odd spellings included, prove that they meet those predicates (`connect` needs
none) and work out in full what they do once redirected. `OnDisk` and `Builds` say the theorems about started
programs in terms of the environment and the files on the tree alone.

Code that changes things step by step is imperative here as well: `Os` is the process's view of the
file system and `errno`, the buffers of `nss.rs`, `ffi.rs`, `elf_interp` and the path search are
arrays, `struct passwd` and `struct group` are classes, and the argument vectors are pushed in
loops. Each such method is tied to a function of its inputs or of the old state, and the lemmas say
what that function means. Parsing and remapping are expressions in the library and functions here.

| file | part |
|---|---|
| `Text`, `Utf8`, `Paths`, `FileTree` | bytes, UTF-8, Rust's `Path`, the tree and the kernel's walk |
| `Remap`, `Fallback` | the four roots, candidates, the retry combinators |
| `TinyPrograms`, `Witnesses`, `LoaderWitness` | concrete inputs and trees |
| `Deletion`, `Creation`, `Kernel`, `Runs`, `Sockets`, `Rendezvous` | what runs of redirected calls do to the tree |
| `Shebang`, `Elf`, `Exec`, `ExecHook`, `Starting`, `PathSearch`, `OnDisk`, `Builds` | what is started instead of what was asked for |
| `CStrings`, `Ffi`, `Nss`, `NssFill`, `Accounts` | buffers carved into C strings and pointer arrays |
| `Audit`, `Reach` | the walk over the roots and what it reports |
| `Shell`, `Toolchain` | a POSIX shell's reading of the printed script |

## Where the code and its promise part

Each of these is proved as an exact condition, and shown at a concrete input or on a concrete tree
(`Witnesses`, `LoaderWitness`).

- `parse_shebang` says it splits "the way the kernel splits it", but takes `\r` as a blank, and a NUL
  is no separator to it while it ends the kernel's interpreter. For a line that a newline ends the
  two agree exactly when, without a NUL, the interpreter has no `\r` and its argument none at either
  end; with a NUL in the first word, the name before it has no `\r` and behind the library's first
  word stand only blanks, or a second NUL; with a NUL in the argument, never
  (`Shebang.SplitsAsKernelIff`;
  `Shebang.WindowsLineDiffers` for `#!/bin/sh\r`, `Shebang.NulInLineDiffers` for `#!/bin/sh\0x -e`).
- A program started through the system's loader gets exactly the caller's arguments if and only if
  its path does not start with `--`, which loaders take for an option, and, for glibc's loader, has
  a slash: without one that loader looks where libraries are
  (`Starting.LoaderStartsTheProgramIff`; `LoaderWitness.OptionAndBareNameLost` for `--x/prog` and
  `prog`).
- `execvpe` and `posix_spawnp` start the same program along a `PATH` if and only if the first name
  that can be started is also the first one that can be started and is not lost, or starts the same
  (`PathSearch.HooksAgreeIff`), and along every `PATH` if and only if no name is lost
  (`PathSearch.AgreeEverywhereIff`). A classic name is lost when a file stands above it and one of
  its candidates lives (`OnDisk.LostIff`, `Witnesses.LostOnPath`). With no in-scope name at the root
  this cannot happen to an absolute name (`PathSearch.BareRootLosesNothing`).
- A new name that `rename`, `link` or `symlink` redirected is where `existing_target` looks for it
  afterwards (`Creation.CreateThenFind`), but a lookup tries the name itself first: unless the new node
  is a dangling link, it reaches it if and only if nothing lives at the name itself
  (`Creation.CreateThenLookup`; `Fallback.FallbackRefinesResolve` for a dangling link). A `rename` whose
  old name alone was missing is redirected although the new name is taken, and what stood there keeps
  answering (`Witnesses.NewNameShadowed`); with no in-scope name at the root this cannot happen
  (`Creation.CreateStaysBare`).
- `mkdir`, `mkfifo` and `mknod` go through `with_fallback`, which also moves on from EEXIST: the node
  they make is the one found afterwards if and only if no earlier candidate existed
  (`Creation.MadeIsFoundIff`, `Witnesses.MkdirHides`), and it answers EEXIST
  for the name itself only, never for one taken below the roots (`Kernel.MkdirExact`).
- `two_paths` looks for its old name at the candidates even when that name exists and only the new
  one was missing: a file that exists where its name says, and is not where the new one goes, is left
  behind by a `rename` that reports success if and only if its name has a candidate that exists,
  which is moved instead (`Kernel.LeftBehindIff`, `Witnesses.RenameLeavesBehind`). With no in-scope
  name at the root there is no such file (`Kernel.BareRootLeavesNothing`).
- `unix_sock` reads a path to its first NUL and does not look at the length of the address, which ends
  the path for the kernel. The two take the same path if and only if that NUL is not behind what the
  length covers (`Sockets.SamePathIff`); otherwise a missing path is retried at the candidates of one
  the caller did not name (`Witnesses.LengthIsIgnored`).
- The guard covers deletes. A `rename` can take a file of the base away or put another in its place;
  of the deletes, creations and renames of other programs it is the only call that can
  (`Runs.StepKeepsGuardedIff`, `Witnesses.RenameTakesGuarded`).
- A doubled slash where a prefix is dropped (`//x`, `/usr//x`, `/usr/local//x`) makes the remainder
  absolute, so that `join` forgets the root, and a remainder with more `..` than names before some
  point climbs out of the root again. The walks of the candidates stay below their roots exactly for
  the other spellings (`Remap.BelowRootsIff`, `Witnesses.DoubledSlashEscapes`,
  `Witnesses.ClimbingEscapes` for `/usr/../../home`).
- The four walks of the audit count every file below syshub, the union and zaisys once, except that
  one is lost exactly when the musl directory's own name is taken by a file (`Reach.WalksPartition`,
  `Witnesses.MuslFileUncounted`).
- The comment on `strip_legacy` gives `/lib64/x` as an example, but `lib64` is not in the scope
  guard: a normalised path has no candidates exactly when its first name is not in the guard or it is
  not UTF-8, so `/lib64/x` has none and only `/usr/lib64/x` does (`Remap.NoCandidatesIff`,
  `Witnesses.Lib64Unscoped`).

## Model

| member | source | states |
|---|---|---|
| Remap.UnderAgrees | src/remap.rs:20-38 | below any absolute normalised system root the four roots, written with `join`, are the renderings of four fixed name lists |
| Remap.RootsAre | src/remap.rs:20-38 | which four directories the roots are, in the order they are asked |
| Remap.ScopeOfRender | src/remap.rs:47-61 | a normalised path is in scope exactly when its first name is in the guard, and top-level exactly when that is its only name |
| Remap.ScopeNames | src/remap.rs:8-9 | the guard is exactly `bin`, `sbin`, `lib`, `usr`, `opt`, `var`, `etc` and `boot` |
| Remap.StripLegacyAgrees | src/remap.rs:63-96 | stripping prefixes of the text is dropping and replacing leading names, for every normalised UTF-8 path, and never leaves nothing |
| Remap.LegacyNames | src/remap.rs:63-96 | `boot`, `lib/modules` and `lib/firmware`, with and without `usr` or spelled `lib64`, lead to `kernel`, `drivers/modules` and `drivers/hardware/firmwares`, and the rest of `lib64` to `lib`; `usr/local` is dropped, any other first name kept |
| Remap.NothingLeftIff | src/remap.rs:63-96 | of the absolute UTF-8 texts exactly `/`, `/usr/` and `/usr/local/` leave nothing to look for |
| Remap.CandidatesAgree | src/remap.rs:98-111 | a classic path has exactly four candidates, the i-th being its remaining names below the i-th root, itself normalised |
| Remap.RemapsOnce | src/remap.rs:98-111 | a candidate has candidates of its own if and only if the system root starts with an in-scope name; never for `/` |
| Remap.AbsoluteRemainder | src/remap.rs:65-96 | the remainder of any text is absolute exactly when a dropped prefix is followed by a second slash |
| Utf8.ValidIff | src/remap.rs:65-67 | a text passes the UTF-8 check of `to_str` if and only if it is the encoding of some Unicode scalar values |
| Remap.NoCandidatesIff | src/remap.rs:47-111 | a normalised path has no candidates if and only if its first name is not in the guard or it is not UTF-8 |
| Witnesses.Lib64Unscoped | src/remap.rs:9-75 | `/lib64/x` has no candidates, `/usr/lib64/x` leads to `lib/x` below syshub |
| Remap.BelowRootsIff | src/remap.rs:98-111 | for any in-scope text the walk of each of the four candidates enters its root and never leaves it, if and only if the text has no doubled slash there and no front of its remainder has more `..` than names |
| Witnesses.DoubledSlashEscapes | src/remap.rs:65-111 | `/usr//x` is in scope and its candidates are `/x` |
| Witnesses.ClimbingEscapes | src/remap.rs:47-111 | `/usr/../../home` is in scope, has no doubled slash, and its first candidate names `/home` |
| Remap.CandidatesAreAbsolute | src/remap.rs:98-111 | every candidate of every text, normalised or not, is an absolute path |
| FileTree.WalkIsFolded | src/preload.rs:1604-1617 | the kernel's walk succeeds if and only if every point it passes is a directory and the lexically folded end exists, and then ends exactly there |
| FileTree.BlockedIff | src/preload.rs:1572-1578 | a walk by names ends in ENOTDIR if and only if something above its end is no directory |
| FileTree.LookupIsExact | src/preload.rs:2098-2105 | what looking a normalised path up comes to: its node if it is on the tree, ENOTDIR if a file stands above it, else ENOENT |
| Fallback.Os.WithFallback | src/preload.rs:313-335 | a first call that works, or fails with another errno than ENOENT, is the whole answer: value, tree and errno; after ENOENT they are those of the first candidate that does not fail, or of the first failure with its errno restored |
| Fallback.Os.WithFallbackStat | src/preload.rs:337-354 | the same, except that a bare in-scope name is answered by the real call alone, ENOENT included |
| Fallback.Os.FindExisting | src/preload.rs:2098-2105 | one probe per candidate, each leaving any errno behind: the answer exists and no candidate before it does, or none exists |
| Fallback.RetriedIsFirstGood | src/preload.rs:326-333 | for a call that changes nothing when it fails, all the retries together amount to one call at the first candidate that works |
| Fallback.FallbackIsExact | src/preload.rs:313-335 | for every such call: the first call unless it fails with ENOENT, then the call at the first candidate that works, with none the first failure |
| Fallback.FallbackRefinesResolve | src/preload.rs:313-335 | for a call that succeeds exactly on existing paths: the call on the path if it exists, else on what `resolve` finds, else ENOENT |
| Fallback.FallbackActsOnce | src/preload.rs:313-335 | a redirected call equals one real call on the path or a candidate, and leaves the tree alone when it reports failure |
| Deletion.Lexical | src/preload.rs:1604-1617 | pushing and popping components gives the fold of the path's steps from the root, rooted exactly for absolute text |
| Deletion.RefusesDeleteProbe | src/preload.rs:1619-1641 | the guard on text decides the guard on nodes: below syshub, outside `var` and `etc`, without a node of the same name in the union, and the caller is not zex |
| Deletion.RefusesProbe | src/preload.rs:1643-1665 | the same for a descriptor and a relative name, including a descriptor whose directory is gone |
| Deletion.RemoveFallback | src/preload.rs:1667-1689 | a real call that works or fails with another errno than ENOENT is the whole answer; after ENOENT the existing candidate is guarded again with EPERM and removed; the first errno comes back when there is none |
| Deletion.Remove | src/preload.rs:1691-1731 | the three hooks: guard, then the guarded retry, with result, tree and errno; without the guard any outcome but ENOENT is the real call's |
| Deletion.GuardJudgesTheNode | src/preload.rs:1604-1665 | whenever the kernel's walk of the caller's path ends somewhere, the text the guard judges folds to exactly that node, for any descriptor and any `..` |
| Deletion.GoneDirectoryIsJudged | src/preload.rs:1643-1665 | of a descriptor whose directory is gone the guard judges the text `/proc` still gives, folded with the name; without one it lets the call through |
| Deletion.HookRemovesUnguarded | src/preload.rs:1667-1731 | one hook call leaves the tree alone, or removes one node, which the guard does not cover unless the caller is zex |
| Deletion.BaseSurvives | src/preload.rs:1619-1731 | over every run of delete calls by other programs, every node of the base without a counterpart in the union at the start is still there, the guarded set only grows, and nothing else changes |
| Kernel.DeletableIffUnguarded | src/preload.rs:1619-1703 | a program other than zex can unlink a file by its own path if and only if the guard does not cover it |
| Kernel.DeletableIff | src/preload.rs:1619-1703 | by names: it can unlink a file if and only if that is not below syshub, or is in its `var` or `etc`, or has a counterpart in the union |
| Kernel.UnlinkExact | src/preload.rs:1619-1703 | the whole `unlink` hook on any normalised path: EPERM by the guard, the file removed or EISDIR in place, ENOTDIR below a file, and only for a missing classic name the first existing candidate, guarded again, removed or EISDIR, else ENOENT |
| Runs.MkdirAdds | src/preload.rs:2141-2149 | the kernel's `mkdir` only ever adds a node, for any spelling of the path, and keeps the tree well-formed |
| Runs.HardLinkLinks | src/preload.rs:2247-2255 | so does its `link`, which never changes a node that is there |
| Runs.SymLinkLinks | src/preload.rs:2222-2231 | so does its `symlink` |
| Kernel.RenameKeepsIff | src/preload.rs:2107-2139 | a successful `rename` of one node onto another leaves a third path as it was if and only if neither it nor a directory above it was moved and nothing different was moved onto it |
| Runs.StepKeepsGuardedIff | src/preload.rs:1619-2255 | one redirected delete, `mkdir`, `link`, `symlink` or `rename` leaves a guarded node as it was if and only if it is no `rename` that takes the node or a directory above it or puts something different in its place |
| Witnesses.RenameTakesGuarded | src/preload.rs:1619-2189 | `rename("/overlayer/syshub/bin/sh", "/home/sh")` takes a file the guard covers |
| Runs.BaseSurvivesUnlessMoved | src/preload.rs:1619-2255 | over every run mixing deletes, creations and renames by other programs, each node of the base is still there untouched, unless some `rename` of the run moved it or the union had a node of its name at some point |
| Creation.FindCreatable | src/preload.rs:2087-2096 | one probe per candidate, each leaving any errno behind: the answer's parent is a directory and that of no candidate before it is, or none is |
| Creation.TwoPaths | src/preload.rs:2107-2139 | the two-path combinator's result, tree and errno, with both names chosen in the tree the first call left |
| Creation.PairActsOnce | src/preload.rs:2107-2139 | a redirected `rename`, `link` or `symlink` changes the tree by one real call at most, and not at all when it reports failure |
| Creation.CandidatesNotNested | src/remap.rs:20-29 | no candidate of a path lies below the candidate of a later root, although one root lies inside another |
| Creation.FoundIff | src/preload.rs:2098-2105 | a candidate that exists is the one found if and only if no earlier one exists |
| Creation.CreateThenFind | src/preload.rs:2087-2139 | after a redirected two-path call succeeded with its new name redirected, the name is found at exactly the node `create_target` chose, also when a whole subtree moved in |
| Creation.CreateThenLookup | src/preload.rs:2087-2139 | unless the node `create_target` chose is a dangling link, a later lookup of the new name through the fallback answers for what lives at the name itself, if anything does, and for that node otherwise |
| Creation.CreateStaysBare | src/preload.rs:2087-2139 | such a call leaves a root without in-scope names so, and nothing at the new name itself |
| Witnesses.NewNameShadowed | src/preload.rs:2107-2189 | `rename("/etc/a", "/var/b")` reports success, `/var/b` keeps its old file, and every lookup of it answers for that |
| Creation.MadeIsFoundIff | src/preload.rs:2141-2179 | the node a redirected `mkdir`, `mkfifo` or `mknod` made is the one found afterwards if and only if no earlier candidate existed |
| Kernel.MkdirExact | src/preload.rs:2141-2149 | the whole `mkdir` hook on any classic name: EEXIST for one that exists, whatever is vacant below the roots, made in place when its parent is there, ENOTDIR below a file; else made at the first root that has its parent and lacks its name, or ENOENT |
| Kernel.SymLinkExact | src/preload.rs:2222-2231 | the whole `symlink` hook on any classic new name, in the same way: in place, or at the first candidate with a home, EEXIST if that is taken; the target is passed on unchanged |
| Kernel.RenameExact | src/preload.rs:2107-2189 | a `rename` is the real one's whole answer unless that failed with ENOENT; then it moves one node, the old name's existing candidate or else the old name, to one place, the new name's first candidate with a home or else the new name; or it fails and changes nothing |
| Kernel.LeftBehindIff | src/preload.rs:2118-2137 | a file that exists where its name says is left behind by a successful redirected `rename` if and only if its name has a candidate that exists; where the new place is the old name itself, if and only if the two files are equal |
| Witnesses.RenameLeavesBehind | src/preload.rs:2107-2189 | `rename("/etc/a", "/var/b")` leaves `/etc/a` and takes syshub's `etc/a` |
| Kernel.BareRootLeavesNothing | src/preload.rs:2118-2137 | with no in-scope name at the root no existing file has a candidate that exists |
| Witnesses.MkdirHides | src/preload.rs:2141-2149 | `mkdir("/usr/share")` reports success and the name leads to the older directory of syshub |
| Sockets.UnixSock | src/preload.rs:2399-2446 | result, tree and errno of a socket call retried with the remapped address, and every way it is not retried, also for a path that fills `sun_path` and is read on to a NUL behind it |
| Sockets.FillAddress | src/preload.rs:2435-2440 | the zeroed address with the path's bytes copied in one by one is the address of that path |
| Sockets.AddressCarries | src/preload.rs:2430-2440 | library and kernel both read the path back from the built address; the NUL is inside `sun_path`, the length covers it and is one the kernel accepts |
| Sockets.SamePathIff | src/preload.rs:2416-2425 | library and kernel take the same path from a caller's address if and only if the first NUL is at or before the end the length sets |
| Witnesses.LengthIsIgnored | src/preload.rs:2399-2446 | `bind` to `/var/r`, cut by its length out of `/var/run`, makes the socket at the candidate of `/var/run` |
| Sockets.BindThenConnect | src/preload.rs:2399-2474 | a redirected `connect` goes to the very address a redirected `bind` of the same path used, as long as its candidates stand as `bind` left them |
| Rendezvous.BindExact | src/preload.rs:2399-2460 | a `bind` is the real one's whole answer unless that failed with ENOENT; then it makes the socket at the first candidate with a home of the path the library reads, and fails with the right error when there is none, its name does not fit or is taken |
| Rendezvous.BoundIsReached | src/preload.rs:2399-2474 | for an address that library and kernel read alike: once a redirected `bind` succeeded, a redirected `connect` succeeds on the socket it made and changes nothing |
| Shebang.ParseIsExact | src/preload.rs:1187-1206 | the parser answers a pair if and only if the head is `#!`, blanks, interpreter, optional argument, blanks, up to a newline or the end; so the split is unique |
| Shebang.SplitsAsKernelIff | src/preload.rs:1187-1206 | name and argument passed on are the kernel's if and only if: without a NUL, the interpreter has no `\r` and its argument none at either end; with a NUL in the first word, the name before it has no `\r` and behind the library's first word stand only blanks or a second NUL; never with a NUL in the argument |
| Shebang.WindowsLineDiffers | src/preload.rs:1191-1195 | `/bin/sh` with a Windows line end is split differently |
| Shebang.NulInLineDiffers | src/preload.rs:1187-1206 | of `/bin/sh\0x -e` both take `/bin/sh`, the kernel without an argument, the library with `-e` |
| Elf.ElfInterp | src/preload.rs:1208-1259 | the reader leaves the loader's path and its NUL in the buffer with every index in bounds, or answers nothing, for every file |
| Elf.InterpIsExact | src/preload.rs:1228-1257 | the answer is the path of the first PT_INTERP entry, all entries before it readable, and of nothing else; it has no NUL and fits |
| Elf.FirstLoaderIsNamed | src/preload.rs:1223-1257 | by the bytes of the file: with a table of any number of entries of any size from 56 up, the first entry of type 3, at any index, gives the bytes at its offset, up to a NUL, its size, 4095 or the end of the file; an empty range gives nothing |
| Elf.StaticNamesNone | src/preload.rs:1242-1257 | a table without an entry of type 3 names no loader |
| Elf.OthersNameNone | src/preload.rs:1233-1241 | nor does a file without the magic number, of another class or byte order, or with entries below 56 bytes |
| Text.LastByteWeighsMost | src/preload.rs:1225-1230 | numbers are read lowest byte first |
| Exec.WithArgs | src/preload.rs:1059-1073 | the pushed vector is the given words, then all the caller's but the first, then NULL, for any length |
| ExecHook.FilterEnv | src/preload.rs:1165-1177 | the new environment is the caller's without the two pkg-config variables, the new one behind, NULL-terminated |
| Builds.GlibcPickedIff | src/preload.rs:1092-1122 | glibc is picked if and only if the first entry that binds the variable says `glibc` or `gnu` with blanks around it, or none binds it and the first 16 bytes of the setting file on the tree say so |
| Builds.VariableDecides | src/preload.rs:1075-1098 | `ZAINIUM_LIBC=glibc` or `=gnu` as the first binding picks glibc, `=musl` or an empty value does not, whatever the setting file holds |
| Builds.SettingDecides | src/preload.rs:1099-1121 | without the variable the file `etc/sys-resolver/toolchain` below syshub picks glibc when it holds what `set glibc` writes, and not when it holds what `set musl` writes or is missing |
| Builds.BuildPlaces | src/preload.rs:1099-1142 | which directory holds the drivers that change, and which file the setting, by name |
| Builds.ToolchainIff | src/preload.rs:1124-1185 | the toolchain changes an exec if and only if glibc is asked for so and the program is pkg-config of the base's `bin`, or a compiler driver there whose glibc counterpart lives |
| Builds.StandIns | src/toolchain.rs:60-68 | which five drivers change, and the program below the union each becomes |
| Builds.DriverOnDisk | src/preload.rs:1146-1159 | a compiler driver of the base then starts glibc's program, under its own path, with the caller's other arguments and environment |
| Builds.PkgConfigOnDisk | src/preload.rs:1160-1184 | pkg-config then starts as it is with the caller's arguments, and glibc's directories in its environment |
| Builds.LibdirText | src/toolchain.rs:43-74 | those directories are `lib/pkgconfig` and `share/pkgconfig` of glibc's directory in the union, by name |
| Builds.UnaskedStartsAsItIs | src/preload.rs:1124-1145 | unless glibc is asked for, every such program starts unchanged |
| ExecHook.LoaderStep | src/preload.rs:1326-1350 | the plan for a program whose loader is missing |
| ExecHook.ScriptStep | src/preload.rs:1351-1388 | the plan for a script whose interpreter is missing |
| ExecHook.PrepareExec | src/preload.rs:1281-1396 | the three plans in their order, else the remapped file, else nothing |
| Starting.ChangedIff | src/preload.rs:1281-1396 | a file that is there is started in another way if and only if the toolchain says so, its loader is missing and this system has a copy, or the interpreter in its first 256 bytes is missing and has a candidate |
| Starting.ScriptStartsTheSame | src/preload.rs:1281-1396 | running the plan starts the interpreter's file with the argument, the script's real path and the caller's other arguments, as the kernel's own `#!` rule does where the missing name is another name of that file; only argv[0] differs |
| Starting.LoaderStartsTheProgramIff | src/preload.rs:1326-1350 | the loader runs the program with exactly the caller's arguments (the program's path as argv[0] when there were none) if and only if the path does not start with `--` and, for `ld-linux`, has a slash; the program is the one the kernel would run |
| LoaderWitness.OptionAndBareNameLost | src/preload.rs:1264-1350 | two existing programs, `--x/prog` and `prog`, that glibc's loader does not start |
| OnDisk.ProgramOnDisk | src/preload.rs:1286-1394 | a program asked for by a missing classic name: the first living candidate runs with exactly the caller's arguments |
| Starting.PkgConfigSees | src/preload.rs:1160-1184 | pkg-config finds glibc's directories under one variable, nothing under the other, and every other variable as the caller had it |
| OnDisk.ScriptIsMoved | src/preload.rs:1351-1388 | a script file on the tree whose classic interpreter is missing and has a living candidate is one that gets rewritten, to that candidate |
| OnDisk.ScriptOnDisk | src/preload.rs:1281-1396 | starting such a script runs the candidate on the script's own path, the script's argument in front and the caller's other arguments behind |
| OnDisk.LoaderText | src/preload.rs:1261-1279 | the loader looked for is this system's copy of the same name, glibc's below the union and musl's below its own directory |
| OnDisk.LoaderOnDisk | src/preload.rs:1326-1350 | starting a program file whose loader is missing runs this system's copy, which starts the program at its own path with exactly the caller's arguments |
| PathSearch.ForEachOnPath | src/preload.rs:1451-1478 | a stateful visitor sees exactly the names of `PATH` in order, an empty entry meaning the current directory, those of 4096 bytes or more left out, until it stops |
| PathSearch.BuildName | src/preload.rs:1460-1472 | the reused buffer reads as `dir/name` up to its NUL, whatever it held before |
| PathSearch.Execvpe | src/preload.rs:1480-1513 | an empty name fails with ENOENT, one with a slash is started as it is, and a bare one comes to the names of `PATH` tried in order up to the first that starts or fails with another error, else EACCES if any attempt gave it, else the last attempt's error |
| PathSearch.SearchIsInOrder | src/preload.rs:1495-1511 | the search with its remembered EACCES and its stop flag comes to just that, for every list of names |
| PathSearch.SearchEnds | src/preload.rs:1495-1511 | by errno: names failing with EACCES, ENOENT or ENOTDIR are passed over; the first other outcome is the answer, and when there is none EACCES if it occurred, the last error, or the errno from before |
| PathSearch.LastDirAdds | src/preload.rs:1451-1478 | each directory of `PATH` adds, in order, itself, a slash and the name, an empty one the name alone, unless that is 4096 bytes or more |
| PathSearch.UnsetPath | src/preload.rs:1454-1456 | without `PATH` the three names in `/usr/local/bin`, `/bin` and `/usr/bin` |
| PathSearch.PosixSpawnp | src/preload.rs:1542-1593 | a name with a slash is started as it is; on a bare one, where all that can be started runs: the first name of `PATH` that can be started and is not lost is started, else nothing |
| PathSearch.SpawnsFirstSought | src/preload.rs:1567-1591 | looking along the path with `access` and handing over when there is nothing to fix comes to just that, for every list of names |
| PathSearch.SpawnedIsExact | src/preload.rs:1567-1591 | whatever may be executed: the plan for the first name that is an executable file, or missing with a candidate and no file above it, is started; without a plan the kernel's own search in order |
| PathSearch.RunsFirstTarget | src/preload.rs:1495-1511 | `execvpe` starts the first name that can be started |
| PathSearch.HooksAgreeIff | src/preload.rs:1480-1593 | for every `PATH`, set or not, and every non-empty program name the two hooks agree if and only if the name has a slash, nothing can be started, or those two names start the same |
| PathSearch.SameStart | src/preload.rs:1480-1593 | both hooks start the same file with the same arguments, or neither anything, along every `PATH` none of whose names is lost |
| PathSearch.LostDiffers | src/preload.rs:1572-1580 | along a path of one lost name `execvpe` starts its candidate and `posix_spawnp` finds nothing |
| PathSearch.AgreeEverywhereIff | src/preload.rs:1480-1593 | the two hooks agree on a bare name along every `PATH`, set or not, if and only if no name a `PATH` can produce is lost |
| Witnesses.LostOnPath | src/preload.rs:1480-1593 | `PATH=/usr/bin` with `/usr` a file and `x` in syshub: `execvpe` starts it, `posix_spawnp` does not |
| OnDisk.LostIff | src/preload.rs:1572-1580 | a classic name is lost if and only if a file stands above it and one of its candidates lives |
| PathSearch.BareRootLosesNothing | src/preload.rs:1572-1580 | with no in-scope name at the root no absolute name is lost |
| CStrings.DecodeBlob | src/ffi.rs:28-41 | NUL-free strings laid one behind the other decode to themselves, whatever follows |
| CStrings.ReadBlob | src/nss.rs:133-140 | each string of a blob is read back at its offset, with its NUL inside the blob |
| CStrings.OffsetsFollow | src/nss.rs:133-140 | each string ends, NUL included, where the next starts: the regions are disjoint |
| Ffi.AllOrNone | src/ffi.rs:28-36 | the candidates of a text are UTF-8 all together or not at all, so the conversion never drops only some |
| Ffi.BuildBlob | src/ffi.rs:28-33 | the grown blob is all the candidates with their NULs, or empty |
| Ffi.SysResolverCandidates | src/ffi.rs:8-42 | a positive answer is the number of candidates and the buffer decodes to exactly them; any other answer leaves the buffer alone; when each of 0 and -1 is given |
| Nss.ScanIff | src/nss.rs:51-102 | parsing all lines and then finding is a scan for the first well-formed matching line, and finds nothing if and only if there is none |
| Nss.PasswdLineIff | src/nss.rs:67-85 | which lines are entries and what each says: seven fields, all but the last without a colon, the two numbers as decimals below 2^32 with an optional plus and leading zeros; if and only if |
| Nss.GroupLineIff | src/nss.rs:87-102 | the same for four fields, the members being the non-empty pieces of the last between commas |
| Nss.ParseU32Iff | src/nss.rs:75-98 | a number is read from exactly its decimal forms |
| Nss.PasswdRoundTrip | src/nss.rs:67-85 | every printable entry is parsed back from its printed line |
| Nss.GroupRoundTrip | src/nss.rs:87-102 | the same for groups, members in order |
| Nss.PasswdFileRoundTrip | src/nss.rs:67-85 | a whole printed database is parsed back entry by entry |
| Nss.GroupFileRoundTrip | src/nss.rs:87-102 | the same for groups |
| NssFill.CopyStrings | src/nss.rs:133-140 | the running offset puts the strings at the front of the buffer, gives each its address and leaves the rest of the buffer alone |
| NssFill.StorePointers | src/nss.rs:213-217 | the pointers and a NULL are stored in little-endian form at their place, nothing else is written |
| NssFill.ArrayReadsBack | src/nss.rs:213-217 | each stored pointer is read back from the array |
| NssFill.StringInPlace | src/nss.rs:133-140 | a string pointer denotes its string in any memory that starts with the blob |
| NssFill.StringsApart | src/nss.rs:133-140 | the regions of the strings, NULs included, are pairwise disjoint and inside the blob |
| NssFill.FillPasswd | src/nss.rs:104-150 | succeeds exactly when the five strings fit, then the struct read through the buffer is the entry and its pointers start pairwise disjoint regions inside the buffer; on ERANGE nothing is written; nothing past `buflen` ever is |
| NssFill.PasswdNeeds | src/nss.rs:118-131 | what must fit: the five strings and a NUL each |
| NssFill.FillGroup | src/nss.rs:152-225 | for every base address, length and member count: succeeds exactly when strings, padding and pointer array fit, then name, password, gid and members are read back through aligned pointers, NULL behind them; the struct's pointers and the array's start pairwise disjoint regions inside the buffer, the array's last; on ERANGE nothing is written |
| NssFill.GroupNeedsLeast | src/nss.rs:173-198 | what must fit: the strings and, at the first eight-byte address behind them and no farther, one pointer for each member and a null one |
| NssFill.GroupRegionsApart | src/nss.rs:173-217 | strings and pointer array lie apart, the array behind the last string |
| Accounts.GetpwnamR | src/preload.rs:1735-1768 | the real answer, or the first matching entry filled in, or null with 0, or ERANGE, each exactly when; an answer of the fallback has the caller's name, and null with 0 means exactly that no well-formed line has it |
| Accounts.GetpwuidR | src/preload.rs:1770-1800 | the same by number: `pw_uid` is the caller's, and null with 0 means exactly that no well-formed line has that number |
| Accounts.GetgrnamR | src/preload.rs:1802-1835 | the same for groups by name |
| Accounts.GetgrgidR | src/preload.rs:1837-1870 | the same for groups by number: `gr_gid` is the caller's |
| Accounts.PasswdLookupIsScan | src/nss.rs:51-57 | a lookup answers an entry if and only if some line is the first well-formed one that matches and describes it |
| Accounts.GroupLookupIsScan | src/nss.rs:59-65 | the same for groups |
| Accounts.PasswdNamed | src/nss.rs:51-53 | the entry found by name has that name and is the first well-formed line's that has it; none is found exactly when no line has it |
| Accounts.PasswdNumbered | src/nss.rs:55-57 | the same by user number |
| Accounts.GroupNamed | src/nss.rs:59-61 | the same for groups by name |
| Accounts.GroupNumbered | src/nss.rs:63-65 | the same by group number |
| Accounts.PasswdFieldsSurvive | src/nss.rs:118-128 | the C strings of an entry found in a NUL-free file are its fields, none replaced by the empty string |
| Accounts.GroupFieldsSurvive | src/nss.rs:165-171 | the same for groups and every member |
| Audit.VisitEntries | src/audit.rs:33-46 | one directory's entries keep what the walk keeps: to visit, listed and left out cover the files below the root without overlap |
| Audit.WalkRelative | src/audit.rs:25-49 | the walk ends and lists every non-directory entry below the root outside the excluded subtree exactly once |
| Reach.AuditOneRoot | src/audit.rs:51-83 | counts those entries and reports, file by file, what there is to report |
| Reach.ReportIsExact | src/audit.rs:57-77 | the report holds what is said about each file and nothing else |
| Reach.MissNames | src/audit.rs:59-77 | what is said about a file names its own path below the root and the classic name `/usr/...` that leads nowhere, and is said exactly then |
| Reach.ReachedIff | src/audit.rs:59-63 | a file is reached through its classic name if and only if its stripped names lead to a live node below some root |
| Reach.DisplacedIff | src/remap.rs:63-96 | stripping `/usr/` + rel gives rel back if and only if rel is not under `local/`, `lib64`, `lib/modules`, `lib/firmware` or `boot` |
| Reach.MissesAreDisplaced | src/audit.rs:59-77 | a file reported without a working name is one of those; every other file that is no dangling link is reached; dangling links are told apart exactly |
| Reach.WalkCounts | src/audit.rs:78-82 | the number checked is the number of files below the root outside the excluded subtree |
| Reach.WalksPartition | src/audit.rs:85-94 | the four counts sum to the files below syshub, the union and zaisys, less one exactly when the musl directory's name is a file |
| Reach.FullAudit | src/audit.rs:85-94 | the four results in order, by label, each counting and reporting on exactly the files of its walk, their counts adding up so; on a tree of UTF-8 names every unresolved miss among them is of a displaced file |
| Reach.MissesExplained | src/audit.rs:51-83 | of one root: whatever its report calls unresolved is one of its displaced files |
| Witnesses.MuslFileUncounted | src/audit.rs:85-94 | a tree whose one file takes the musl directory's name: the four counts are zero |
| Toolchain.LexQuoted | src/toolchain.rs:76-78 | a shell reads a quoted text back exactly, quotes and newlines included |
| Toolchain.ScriptMeans | src/toolchain.rs:83-108 | evaluating printed `export` and `unset` lines does what they say, with or without the final newline |
| Toolchain.EnvMeans | src/toolchain.rs:80-109 | the script of either libc sets exactly the intended variables to the intended values and unsets exactly the intended ones |
| Toolchain.GlibcBuildSees | src/toolchain.rs:83-99 | after evaluating glibc's script: the value of each of the seven variables it sets, the two it unsets, and every other variable as before |
| Toolchain.MuslBuildSees | src/toolchain.rs:100-107 | the same for musl's five and two |
| Toolchain.Env | src/toolchain.rs:80-109 | the pushed and joined text evaluates to the intended variables from any variables, also through `$(...)` |
| Toolchain.MuslAfterGlibc | src/toolchain.rs:80-109 | glibc's script followed by musl's ends as musl's alone on a variable if and only if it is neither PKG_CONFIG_PATH nor LDFLAGS, or was unset before |
| Toolchain.SettingReadsBack | src/toolchain.rs:21-40 | the name written to the setting file is parsed back as the same libc |
| Toolchain.ParseIff | src/toolchain.rs:21-28 | a text names musl if and only if it is `musl` with blanks around it, and glibc if and only if it is `glibc` or `gnu` so |

## Left out

- Symbolic links: a link is a leaf that knows whether its target exists; resolution through links, and with it roots that are links, is not modelled.
- Runs.BaseSurvivesUnlessMoved: `renameat` with two directories and `renameat2` with flags are not among the calls of a run.
- Calls that change a file's contents or attributes in place (`open` for writing, `truncate`, `chmod` and the like) are not among the calls of a run.
- Abstract socket names: binding one always succeeds and is not remembered; the length 2 that asks for a name of the kernel's choice is refused.
- Permissions, device nodes and changes by other processes between a probe and the call after it.
- The roots of the namespace and audit theorems are below an absolute normalised system root; other values of `ZAINIUM_ZAIROOT` are covered by `Ffi` and `Toolchain` only.
- Starting.ScriptStartsTheSame: a newline ends the line within the first 256 bytes; a line without one is cut by both, at limits that depend on the kernel's version. The line is one both split alike, as `Shebang.SplitsAsKernelIff` says.
- Starting.LoaderStartsTheProgramIff: what glibc's loader finds when it looks a bare name up among the libraries is not modelled; the image the loader starts from is assumed to run as it is, as is a script's interpreter; the library rewrites one level only.
- The model of exec answers ENOENT for any file that cannot be reached, and knows no interpreter limits but a depth.
- The real `posix_spawnp` is modelled with the hook's own list of names, including the ones left out for their length.
- Toolchain.SettingReadsBack: `trim` is modelled for ASCII blanks, not for the Unicode ones.
- Toolchain.Env: `display()` of a system root that is not UTF-8 replaces bytes; the model keeps them.
- NssFill.FillGroup: the value `usize::MAX` of `align_offset` and sums beyond the address space; the buffer lies inside the address space.
- Null pointers where the C declaration forbids them, validity of raw pointers, `vfork` and allocation rules, thread-local buffers; C strings are NUL-free sequences, pointers are offsets or addresses.
- Short reads of files: `read` and `pread` give what is there.
- The hooks that only name a real function and a combinator, the tables of real functions, their lookup with `dlsym` and the start-up code.
- `dlopen`, `freopen`, `ftw` and `nftw`, the xattr hooks, `execveat`, `setmntent`: variants of the same retry with nothing harder to prove; `renameat2` with flags.
- The non-reentrant `getpwnam` and its siblings, which call the modelled ones with a buffer of their own.
- `src/main.rs` (command line), `src/execl.c` (argument copying), `src/test_fixture.rs` and the build files.
