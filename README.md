# Glue for Sublime Text — a verified model of its upload core

Glue is a Sublime Text plugin that uploads the selected text (or the whole
file) as a snippet to a paste service and hands the resulting URL back to the
user. This project models, in Dafny, the part of `Glue.py` that decides what
is uploaded and what state results:

- **Text gathering** (`GlueCommand.selectedRegions`): the texts of the
  non-empty selection regions in selection order, or the whole buffer when
  no region is non-empty. Modelled as a method with the source's loop,
  proved against the function `Command.Gathered`.
- **File name reduction** (`GlueCommand.getFilename`): `''` without a file
  name, otherwise the last part of `path.split(os.sep)`. Python's `str.split`
  is modelled (`Python.Split`) with its inverse `Python.Join`.
- **Settings lookup** (`GlueSublimeText.packageSetting`): a map lookup that
  yields `False` for an absent key.
- **Upload state** (`GlueSnippet`): a class with the fields `apiKey`,
  `pasteUrl`, `filename`, `regions`, `lastResult` and `lastError`; the two
  validators and `save` update `lastResult` and `lastError` in place;
  `saved()` and `url()` are functions of that state.
- **The command's decision** (`GlueCommand.run`): which request is sent, if
  any, and whether the URL is shared or the error is reported.

Python's truthiness, on which every check in the source rests, is written out
(`Python.Truthy`, `LastResult.Truthy`, `LastError.Truthy`). The settings file
is a map from keys to JSON-shaped values (`Python.Value`). The network is a
parameter: `Save` receives a `PostOutcome` — the POST is redirected to a
final URL, raises `IOError`, or raises another exception — and consults it only when it sends a
request, which it returns as `sent` (`None` when no request is issued).

A URL is accepted when it is truthy, not merely non-empty; a key when it is
truthy and differs from the placeholder `'APIKEYGOESHERE'`. `saved()`
also requires `lastError` to be falsy, so a snippet whose earlier save failed
stays unsaved after a later successful one
(`Snippet.SaveAgainAfterTransportError`). `save` catches only `IOError`: any
other exception from the POST (a `ValueError` for a URL without a scheme, an
`AttributeError` for a truthy paste URL that is not a string, an
`HTTPException` that is not an `IOError`) escapes `save` and ends `run` with
neither branch taken; the model carries it as the outcome `Raised`. Under
Python 2 the form encoder, which runs before the `try`, can also raise
(`UnicodeEncodeError` for a non-ASCII unicode file name or key) before any
request; the model does not carry that case (see "Left out").

Files: `python.dfy` (module `Python`), `sublime.dfy` (module `SublimeText`),
`snippet.dfy` (module `Snippet`), `command.dfy` (module `Command`).

## Model

| member | source | states |
|---|---|---|
| `Python.Split` | Glue.py:44 | `str.split` always yields at least one part |
| `Python.SplitPartsHaveNoSeparator` | Glue.py:44 | no part of a split contains the separator |
| `Python.JoinSplit` | Glue.py:44 | joining the parts with the separator gives back the path |
| `Python.SplitJoin` | Glue.py:44 | splitting a join of separator-free parts gives back the parts |
| `Python.LastPartIsLastComponent` | Glue.py:44-45 | the last part is a suffix of the path, holds no separator, and is preceded by a separator unless it is the whole path |
| `Command.GetFilename` | Glue.py:40-46 | `''` when the view has no file name; otherwise the longest separator-free suffix of the path |
| `SublimeText.Substr` | Glue.py:34 | the text a region covers has the region's length, is empty iff the region is, and is the buffer's characters from `begin()` on |
| `SublimeText.PackageSetting` | Glue.py:51-56 | the stored value when the key is present, `False` otherwise |
| `SublimeText.PackageSettingFalsy` | Glue.py:54-56 | a setting reads falsy iff it is absent or stored falsy |
| `Command.Gathered` | Glue.py:36-38 | the result is never empty: the non-empty regions' texts when there are any, else the one-element list holding the whole buffer |
| `Command.SelectedRegions` | Glue.py:29-38 | the loop over the selection returns exactly `Gathered` |
| `Command.NonEmptyPositionsExactly` | Glue.py:32-33 | the positions kept are increasing and are exactly those of the non-empty regions |
| `Command.NonEmptyTextsAtPositions` | Glue.py:31-34 | the k-th gathered text is the text of the region at the k-th kept position: the texts of the non-empty regions, one per region, in selection order, none left out |
| `Command.NonEmptyTextsAppend` | Glue.py:31-34 | gathering a concatenated selection concatenates the texts |
| `Command.EmptyRegionContributesNothing` | Glue.py:33 | removing an empty region anywhere in the selection leaves the texts unchanged |
| `Command.NoTextsIffAllEmpty` | Glue.py:31-38 | no text is gathered iff every region is empty, which is exactly when the whole buffer is returned |
| `Command.SelectedTextsNonEmpty` | Glue.py:33-34 | every text gathered from a region is non-empty |
| `Snippet.GlueSnippet.constructor` | Glue.py:60-68 | key and URL come from the settings, `lastResult` and `lastError` start as `None` |
| `Snippet.GlueSnippet.Url` | Glue.py:70-74 | the response's final URL when `lastResult` is truthy, `False` otherwise |
| `Snippet.GlueSnippet.Saved` | Glue.py:166-172 | true iff the result is truthy and the error falsy; a saved snippet has a URL |
| `Snippet.GlueSnippet.HasApiKey` | Glue.py:129-133 | false and the API-key message exactly when the key is falsy or the placeholder; otherwise true and `lastError` unchanged |
| `Snippet.GlueSnippet.HasPasteUrl` | Glue.py:135-139 | false and the paste-URL message exactly when the URL is falsy; otherwise true and nothing changes |
| `Snippet.GlueSnippet.Save` | Glue.py:141-159 | returns the same object; a request with the four form fields is sent iff both checks pass; otherwise `lastResult` is unchanged and `lastError` holds the first failing check's message (the URL check is skipped after a bad key); a redirect records the response, an `IOError` records `False` and the error, any other exception escapes with the state as the checks left it |
| `Snippet.SaveAgainAfterTransportError` | Glue.py:141-172 | a successful save after a failed one has a URL but is not `saved()`, since `lastError` is never cleared |
| `Command.Run` | Glue.py:15-27 | the request carries the gathered text, base name and key; the URL is shared iff both checks pass and the POST is redirected, and otherwise the API-key message, the paste-URL message or the `IOError` is reported, or, for an exception that escapes `save`, the command ends with neither |

## Left out

- `urlopen` (the HTTP POST) is not modelled as HTTP: its outcome is the parameter `reply` of `Save`, a redirect to a final URL, an `IOError`, or another exception; which exception a given paste URL provokes (e.g. `AttributeError` for a non-string URL) is left to that parameter.
- `urlencode` and `json.dumps`: the form encoding and the JSON encoding of `snippets` are not modelled; `Request` keeps the four form fields (`snippets`, `apiKey`, `filename`, `redirect`) as values.
- `Snippet.GlueSnippet.Save`: does not model the Python 2 form encoder raising `UnicodeEncodeError` for a non-ASCII unicode file name or API key; there `save` raises before any request is sent, while the model sends the request whenever both checks pass, because the encoding itself is not modelled.
- `Command.Run`: for the same Python 2 `UnicodeEncodeError` from the form encoder, the command ends with neither branch and nothing sent; the model instead sends the request and gives a `Shared`, `Reported` or `Aborted` reaction.
- `notify`, `notifyOSX`, `notifyOther`: shell commands, dialogs and status messages are not modelled, nor is the `terminal-notifier` probe.
- `show`, `clipboard`, `error`: browser, clipboard and notifier calls; `Command.Run` returns which of them would run (`Shared(url)` or `Reported(error)`) instead.
- `sublime.load_settings` and the Python 2/3 import shim: the settings are a plain map, taken as always present (the settings object is always truthy).
- `Python.Value`: numbers are whole numbers; a floating-point setting is not modelled (it would be truthy exactly when non-zero).
- `Command.SelectedRegions`: requires every region to lie within the buffer, which the editor guarantees for a selection.
- `Snippet.GlueSnippet.constructor`: takes the file name and regions as given; the `None` defaults of the Python constructor are not modelled, as `run` always passes both.
- `os.sep` is the parameter `sep` of `Command.GetFilename`.
