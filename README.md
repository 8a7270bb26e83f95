# npm install/uninstall helper: a Dafny model

This project models `src/npm.js` of mrm-core. The module installs npm packages that the project's
`package.json` does not yet list, or uninstalls the ones it does list. It then shells out to
`npm install|uninstall --save|--save-dev <names>`.

The model is functional, like the source. The source is made of `Array.filter`, `concat` and
ternaries, with effects only at its boundary. Those effects are modelled as values:

- The manifest comes in as `Option<Manifest>`. `None` means that no `package.json` exists, so the
  defaults literal at `src/npm.js:15-18` is used. Each section is an `Option<Section>`, and a
  missing section reads as `{}` (`|| {}`).
- The `console.log` line and the executor call come out together as `Outcome.run`: a `Message`
  plus an `Invocation`, which holds the executor and the `Command` it receives. `None` means
  nothing was logged and nothing was run.
- The value that `install`/`uninstall` return is `Outcome.returned`. It is always `undefined`,
  because the result of `runNpm` is discarded.
- Option fields are JavaScript values (`Value`). This keeps the source's checks exact: `dev` uses
  `!== false`, and `remove`/`dev` inside `runNpm` use truthiness.

Files: `wrappers.dfy` (an `Option` datatype) and `npm.dfy` (module `Npm`).

Three behaviours of the code are worth stating up front:

- A package counts as installed when `installed[dep]` is truthy (`src/npm.js:21`, `src/npm.js:43`).
  So an entry whose version string is `""` counts as not installed: `IsInstalled` is
  `dep in section && section[dep] != ""`.
- `install` and `uninstall` throw away the result of `runNpm` and return `undefined`
  (`src/npm.js:28-29`, `src/npm.js:51-52`).
- The JSDoc of `runNpm` gives `options.dev` a default of `true` (`src/npm.js:59`). The code passes
  `--save` when `dev` is undefined, because it tests truthiness (`src/npm.js:70`), and the model
  follows the code. `install` and `uninstall` always pass a boolean `dev`, so they never reach
  this case.

## Model

| member | source | states |
|---|---|---|
| `Npm.Filter` | src/npm.js:21 | the filtered list is no longer than the request, and each of its names has the wanted installed state (not installed for install, installed for uninstall at line 43) |
| `Npm.FilterSubsequence` | src/npm.js:21 | the filtered list is a subsequence of the request, so the request's order is kept |
| `Npm.FilterCounts` | src/npm.js:43 | each name with the wanted state appears in the filtered list as often as in the request, so duplicates are kept; other names do not appear |
| `Npm.FilterUnique` | src/npm.js:21 | any subsequence of the request with those exact multiplicities IS the filtered list, so subsequence plus counts characterise `filter` completely |
| `Npm.FilterPartition` | src/npm.js:43 | the "not installed" and "installed" lists split the request: their lengths add up to its length and their multisets add up to its multiset |
| `Npm.FilterEmpty` | src/npm.js:22-24 | the filtered list is empty iff no requested name has the wanted state (both directions) |
| `Npm.FilterKeepsAll` | src/npm.js:21 | when every requested name has the wanted state, the whole request is kept unchanged |
| `Npm.RunNpm` | src/npm.js:64-77 | the executor is the injected one, else `spawnSync`; the program is `"npm"`; the args have length 2 + \|deps\|; args[0] is `uninstall` iff `remove` is truthy; args[1] is `--save-dev` iff `dev` is truthy; the names follow in order; `stdio` defaults to `"inherit"` only when undefined; `cwd` is passed through |
| `Npm.RunNpmArgsRoundTrip` | src/npm.js:68-71 | reading the built argument list back gives exactly the `remove` flag, the `dev` flag and the package names; this only restates, as a decoding, the three argument positions that `RunNpm`'s contract fixes |
| `Npm.Install` | src/npm.js:10-29 | returns `undefined`; when it runs anything, it logs `Installing` with the names and runs `npm install` on them, with `--save-dev` iff dev, `stdio` `"inherit"` and `cwd` unset, through the given executor |
| `Npm.Uninstall` | src/npm.js:32-52 | returns `undefined`; when it runs anything, it logs `Uninstalling` with the names and runs `npm uninstall` on them, with `--save-dev` iff dev, `stdio` `"inherit"` and `cwd` unset |
| `Npm.InstallSelectsMissing` | src/npm.js:21 | install passes exactly the requested names that are not installed in the target section: a subsequence of the request with their full multiplicities |
| `Npm.UninstallSelectsPresent` | src/npm.js:43 | uninstall passes exactly the requested names that are installed in the target section, in request order, with their multiplicities |
| `Npm.InstallUninstallPartition` | src/npm.js:19-43 | for the same request, options and manifest (install's lookup and filter at lines 19-21, uninstall's at lines 41-43), install's and uninstall's name lists split the request (lengths and multisets add up) |
| `Npm.InstallNothingToDo` | src/npm.js:21-24 | install logs nothing and calls no executor iff every requested name is already installed |
| `Npm.UninstallNothingToDo` | src/npm.js:43-47 | uninstall logs nothing and calls no executor iff no requested name is installed |
| `Npm.InstallWithoutManifest` | src/__tests__/npm.spec.js:42-45 | with no package.json, install runs iff the request is non-empty, and it runs `npm install` on the whole request |
| `Npm.DevFlagOnlyExactFalse` | src/npm.js:13-19 | `dependencies` is consulted and `--save` is passed iff `options.dev` is exactly `false`; otherwise, including when options are missing, `devDependencies` and `--save-dev` are used |
| `Npm.OtherSectionIgnored` | src/npm.js:19 | the section that the dev flag does not select has no influence on what install or uninstall do |
| `Npm.SingleNameIsList` | src/npm.js:12 | a single name behaves exactly like a one-element list |
| `Npm.InstallSkipsInstalledExample` | src/__tests__/npm.spec.js:36-40 | with `eslint` in devDependencies, installing `[eslint, babel-core]` runs `npm install --save-dev babel-core` only |
| `Npm.EmptyVersionIsNotInstalledExample` | src/npm.js:21 | an entry whose version is `""` is falsy, so that package is installed again |

## Left out

- Reading `package.json` (`./files/packageJson`) is not part of this model. It is file I/O. Its
  result is an input: `None` for a missing file (the defaults are used), otherwise the two
  sections as found. How the reader merges defaults into a file it finds is not modelled.
- `spawnSync` and any injected executor are not run. The model records the `Invocation` they are
  given (which executor, program, args, stdio, cwd). Exit codes and process results are not
  modelled.
- `console.log` and `listify` formatting are not modelled. The model records only that a log line
  is emitted and which names it lists (`Message`). A log line is emitted exactly when npm runs.
- `lodash/castArray` is modelled only as "one name or a list of names" (`Deps`). Other argument
  shapes, such as `undefined` becoming `[undefined]`, are not modelled.
- Inherited properties of JavaScript objects are not modelled. In JavaScript, `installed["constructor"]`
  is truthy through the prototype; here a name is installed only if the section holds it.
- Manifest versions are strings. Non-string values in package.json are not modelled.
- JavaScript numbers in options are integers here, so `NaN` is not modelled.
- The tests expect calls to a mocked `yarn-install` module, which `src/npm.js` never calls. Only
  the names they expect to be filtered are modelled (`InstallSkipsInstalledExample`,
  `InstallWithoutManifest`). Their call format is not.
