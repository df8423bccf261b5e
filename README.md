# Manifest resolution and download pipeline, in Dafny

This project models the core of a chat bot that, for a Steam application id,
resolves depot manifests and depot decryption keys from several candidate
GitHub repositories. The bot:

- picks the repository whose branch for that app id has the head commit with the latest author date;
- walks that commit's file tree;
- downloads every missing `.manifest` file through a ranked list of CDN mirrors, in up to three rounds over the list;
- collects depot keys from `key.vdf` files;
- builds the depot → manifest-id map, with each list sorted newest first.

It also models the rate-limit report that the bot shows beside the result.

Files and modules:

- `wrappers.dfy` (`Wrappers`): `Option` and `Result`. These stand for Python's `None` and for raised exceptions.
- `text.dfy` (`Text`): the Python string operations the core relies on:
  - `str.endswith`;
  - the substring test `in`;
  - ASCII `str.lower`;
  - `str(int)`, and its inverse on digit strings.
- `github.dfy` (`GitHub`, from `src/network/github.py`):
  - the rate-limit report, as a total function from the reply and the local-time formatting to the returned record;
  - repository selection, both as the code is written and corrected (see Findings);
  - the bounded-retry CDN download, as the method `GitHubApi.FetchFile`, proved against the function `Fetch`.
- `bot.dfy` (`Bot`, from `bot.py`):
  - the tree walk, as a step function `EntryStep` folded over the tree by `WalkPrefix`;
  - the depot-map sort;
  - the two stateful objects, both modelled as classes. `ManifestStore` is local storage: the files that exist. `OnekeyApp` holds the `downloadedFiles` set, which its methods update in place.

The outside world becomes inputs:

- Each candidate repository comes paired with the reply its branch query got.
- A download is a function from (round, endpoint rank) to a reply. In the tree walk it is also indexed by the tree entry.
- The tree listing is `Some(paths)`, or `None` when its request fails.
- The filename parser and the key-file parser of `src/utils/steam.py` are function parameters. That file is not part of this model.
- The locality flag and the outcome of the configuration tool are parameters of `Run`.
- `time.strftime(..., time.localtime(t))` is a parameter of `CheckRateLimit`. It either formats the reset or raises.

Dates are integer timestamps.

Two details of the code that the model keeps:

- The per-depot lists are sorted non-strictly descending by `int(x)` (bot.py:120), so duplicate ids stay next to each other.
- The selection returns no match when the winning repository name is the empty string, because the code tests `if selected_repo:` (src/network/github.py:84).

## Model

| member | source | states |
|---|---|---|
| `Text.EndsWith` | bot.py:101 | (no contract of its own) `str.endswith`: the suffix fits and the last characters equal it |
| `Text.Contains` | bot.py:115 | the substring test is true exactly when some window of the string equals the marker |
| `Text.Lower` | bot.py:115 | `str.lower()` on ASCII: same length, each upper-case ASCII letter lowered and every other character kept |
| `Text.ParseNat` | bot.py:120 | (no contract of its own) `int(s)` on a decimal digit string; described by `IntToStringRoundTrip` |
| `Text.IntToString` | src/network/github.py:51 | (no contract of its own) `str(n)` in decimal with a leading `-` for negatives; described by `IntToStringRoundTrip` |
| `Text.IntToStringRoundTrip` | src/network/github.py:51 | `str` of an integer is non-empty, starts with `-` only for negatives, and parses back to the same integer |
| `GitHub.ResetOf` | src/network/github.py:36-39 | (no contract of its own) `rate_limit.get("reset", 0)`: the body's reset, or 0 when the "rate" object or its "reset" is missing |
| `GitHub.RelativeToken` | src/network/github.py:51 | (no contract of its own) `f"<t:{reset_time}:R>"`; described by `RelativeTokenRoundTrip` |
| `GitHub.Readable` | src/network/github.py:30-36 | (no contract of its own) the reply lets lines 35-52 run: a 200 response whose body could be read as JSON |
| `GitHub.CheckRateLimit` | src/network/github.py:25-57 | never raises. It gives `{"error": message}` for a transport error, a non-200 status, an unreadable body, or a reset that the local-time formatting rejects. For a bad status the status can be read back from the message; for an exception the message is the prefix plus its text. Otherwise it gives the quota record: its formatted reset is the formatting's output, and its relative-time token decodes to the reported reset |
| `GitHub.RateLimitFields` | src/network/github.py:35-49 | on a readable 200 body whose reset the formatting accepts, each present field is reported as given; missing ones default to remaining 0, limit 60, used 0 and reset 0 |
| `GitHub.RateLimitExample` | src/network/github.py:35-52 | a 200 reply with remaining 10, limit 60, reset 1700000000 and used 50 gives exactly those values, the formatted time and a non-empty relative token |
| `GitHub.RelativeTokenRoundTrip` | src/network/github.py:51 | `"<t:" + str(reset) + ":R>"` decodes back to `reset` |
| `GitHub.StatusFailureRoundTrip` | src/network/github.py:30-33 | the status-failure message decodes back to the HTTP status |
| `GitHub.Accepted` | src/network/github.py:72-76 | (no contract of its own) a 200 reply with "commit" and a date that parses: the candidate takes part in the comparison |
| `GitHub.Latest` | src/network/github.py:68-80 | (no contract of its own) the fold over the candidates in list order. It replaces the choice only on a strictly later date (line 77). `strict` selects the corrected reading, in which a reply without a sha is not eligible. Its properties are the lemmas below |
| `GitHub.LatestNoneIffNoneEligible` | src/network/github.py:68-82 | the fold keeps no candidate exactly when no candidate gave a 200 reply with "commit" and a readable date |
| `GitHub.LatestIsFirstMaximum` | src/network/github.py:77-80 | the kept choice has the date, name and sha of one eligible reply. No eligible reply is later, and every earlier eligible reply is strictly older, so ties go to the first one seen |
| `GitHub.FirstLatestUnique` | src/network/github.py:77-80 | at most one candidate is the first latest one |
| `GitHub.IneligibleIsSkipped` | src/network/github.py:70-82 | a candidate whose query raised, answered non-200 or lacked commit data leaves the result unchanged, wherever it stands, and later candidates are still folded |
| `GitHub.OrderIrrelevantForDistinctDates` | src/network/github.py:68-80 | for the fold `Latest`: when distinct eligible replies have distinct dates, any reordering of the candidates gives the same choice. As written, this carries over to the name and the date (`FoldAsWrittenTracksLatest`), but not to the sha (`AsWrittenShaDependsOnOrder`) |
| `GitHub.StepAsWritten` | src/network/github.py:70-82 | (no contract of its own) one iteration as written: an accepted, strictly later reply sets the date and the name, and sets the sha only when the reply has one |
| `GitHub.FoldAsWritten` | src/network/github.py:64-82 | (no contract of its own) the three running variables after the loop; described by `FoldAsWrittenTracksLatest` |
| `GitHub.Finish` | src/network/github.py:84-88 | (no contract of its own) `if selected_repo:`, the truthiness of the name, builds the result |
| `GitHub.SelectAsWritten` | src/network/github.py:60-88 | (no contract of its own) the function as written; described by `SelectAsWrittenIsFirstLatest` and `AsWrittenMixesReplies` |
| `GitHub.SelectLatest` | src/network/github.py:60-88 | (no contract of its own) the corrected selection; described by `SelectLatestIsFirstLatest` |
| `GitHub.FoldAsWrittenTracksLatest` | src/network/github.py:64-80 | the code's three running variables: the date and name always follow the first-latest fold; the sha follows it whenever the chosen reply carries one |
| `GitHub.SelectAsWrittenIsFirstLatest` | src/network/github.py:64-88 | with non-empty names, as written: no match exactly when no candidate gave a 200 reply with commit data and a readable date, whether or not it had a sha. Otherwise the result has the name and date of the first latest accepted candidate, and its sha whenever that reply has one |
| `GitHub.SelectLatestIsFirstLatest` | src/network/github.py:72-88 | with non-empty names: no match exactly when no usable 200 reply came; otherwise the first latest candidate's name, date and own sha |
| `GitHub.AsWrittenAgreesWhenShaPresent` | src/network/github.py:77-88 | when every accepted reply has a sha, the code as written and the corrected selection return the same result |
| `GitHub.AsWrittenMixesReplies` | src/network/github.py:78-80 | as written, a later reply without "sha" yields its name and date paired with an earlier reply's sha |
| `GitHub.AsWrittenSkipsUnaccepted` | src/network/github.py:70-82 | as written, a candidate that is not accepted changes none of the three running variables, wherever it stands, so the selection is the same without it |
| `GitHub.AsWrittenShaDependsOnOrder` | src/network/github.py:77-80 | as written, the sha can depend on the order even when all dates differ: dates 1 (sha `sa`), 2 (sha `sb`) and 3 (no sha) give `sb` in that order and `sa` when the last two are swapped |
| `GitHub.CdnList` | src/network/github.py:92 | (no contract of its own) the CN list or the global list, by locality |
| `GitHub.Delivered` | src/network/github.py:99 | (no contract of its own) `r.status_code == 200` of a response that did not raise |
| `GitHub.Scan` | src/network/github.py:94-102 | (no contract of its own) the requests from a given (round, rank) on, up to the first 200 reply; described by `ScanFindsFirst` |
| `GitHub.Fetch` | src/network/github.py:90-104 | (no contract of its own) the download's outcome and request count; described by `FetchReturnsFirstDelivery` and `FetchFailsOnlyWhenExhausted` |
| `GitHub.GitHubApi.constructor` | src/network/github.py:14-23 | a new API wrapper starts with the locality flag set |
| `GitHub.GitHubApi.GetLatestRepoInfo` | src/network/github.py:60-88 | the loop over the candidates computes the selection as written |
| `GitHub.GitHubApi.Endpoints` | src/network/github.py:92 | the endpoint list is the CN list when `is_cn` is set and the global list otherwise |
| `GitHub.GitHubApi.FetchFile` | src/network/github.py:90-104 | the nested round/endpoint loop returns the outcome and request count of `Fetch` over the endpoints chosen by the locality flag |
| `GitHub.ScanFindsFirst` | src/network/github.py:94-100 | from a given request on, the scan finds the first delivering request in round-major, then rank order, or reports that none delivers |
| `GitHub.RequestBound` | src/network/github.py:94-95 | a request inside the three rounds has a count of at most 3 × the number of endpoints |
| `GitHub.FetchReturnsFirstDelivery` | src/network/github.py:94-100 | a successful download returns the bytes of the first 200 reply, after exactly the requests before it plus one, and at most 3 × n requests |
| `GitHub.FetchFailsOnlyWhenExhausted` | src/network/github.py:94-104 | the download fails exactly when no request of the three rounds got a 200 reply; it then issued exactly 3 × n requests and names the path |
| `GitHub.FetchWithoutEndpoints` | src/network/github.py:94-104 | with an empty endpoint list, no request is issued and the download fails naming the path |
| `GitHub.FetchThirdEndpointExample` | src/network/github.py:94-100 | two endpoints answering 404 and a third delivering "DATA" return "DATA" after three requests |
| `Bot.Recognized` | bot.py:112 | (no contract of its own) `if depot_id and manifest_id`: both present and non-empty |
| `Bot.SavePath` | bot.py:102 | (no contract of its own) `Path("manifests") / file_path`, written as string concatenation |
| `Bot.SavePathInjective` | bot.py:102 | distinct tree paths have distinct save paths, for the model's string join |
| `Bot.Classify` | bot.py:101-115 | (no contract of its own) the `if`/`elif` of the loop body; described by `ClassifyMeaning` |
| `Bot.ClassifyMeaning` | bot.py:101-115 | an entry is a manifest exactly when its path ends in `.manifest`. Otherwise it is a key file exactly when the lowered path has a window equal to `key.vdf`, and ignored exactly when it has none |
| `Bot.KeyFileIsCaseInsensitive` | bot.py:115 | the key-file test ignores case: a path that is not a manifest is a key file exactly when some window of it, lowered, equals `key.vdf`, and is ignored exactly when no window does |
| `Bot.ClassifyManifestExamples` | bot.py:101 | a path ending in `.manifest` is a manifest, even when it also contains `key.vdf` |
| `Bot.ClassifyKeyExample` | bot.py:115 | the key marker is matched case-insensitively |
| `Bot.ClassifyOtherExample` | bot.py:98-117 | a path that neither ends in `.manifest` nor contains the key marker is ignored |
| `Bot.AddManifestId` | bot.py:111-113 | a recognized name appends its manifest id to its depot's list, creating the list if absent, and leaves every other depot alone; an unrecognized name changes nothing |
| `Bot.Value` | bot.py:120 | (no contract of its own) the sort key `int(x)` of a digit-string manifest id |
| `Bot.InsertDescending` | bot.py:119-120 | inserting an id into a list sorted newest first keeps it sorted and adds exactly that id |
| `Bot.SortDescending` | bot.py:119-120 | the sort by integer value, descending, returns a sorted permutation of its input, duplicates kept |
| `Bot.SortExample` | bot.py:119-120 | ids 50, 75, 60 of depot 1000 come out as 75, 60, 50 |
| `Bot.SortAll` | bot.py:119-120 | the final pass keeps the depots and turns each list into a sorted permutation of itself |
| `Bot.FetchEntry` | bot.py:106-116 | (no contract of its own) `self.github.fetch_file(...)` for the entry at a given index, over the chosen endpoint list; described by `FetchReturnsFirstDelivery` and `FetchFailsOnlyWhenExhausted` |
| `Bot.EntryStep` | bot.py:98-117 | (no contract of its own) one loop iteration on the walk state; described by `EntryStepOnlyAddsManifest`, `EntryStepDownloads` and `OtherEntryChangesNothing` |
| `Bot.WalkPrefix` | bot.py:98-117 | (no contract of its own) the loop over the first `i` entries, stopping at the first failed download |
| `Bot.WalkPrefixNext` | bot.py:98-117 | one more entry of a running walk is one `EntryStep` |
| `Bot.WalkKeepsIdsNumeric` | bot.py:111-113 | with a parser that yields digit-string manifest ids, every depot list holds digit strings only, so `int(x)` in the sort is defined |
| `Bot.RunningPrefix` | bot.py:98-117 | a walk still running after some entries was running after every shorter prefix |
| `Bot.StoppedPersists` | bot.py:98-117 | after a failed download the walk stays stopped, with the state and error of that moment |
| `Bot.IdsFor` | bot.py:111-113 | (no contract of its own) reference definition: the manifest ids of one depot among the first entries, in tree order |
| `Bot.WalkDepotsAreIdsInTreeOrder` | bot.py:101-113 | from an empty map, a running walk maps exactly the depots with a recognized manifest entry, each to its ids in tree order, whether or not each file was downloaded |
| `Bot.EntryStepOnlyAddsManifest` | bot.py:101-109 | one entry never overwrites a file. A new file is that entry's save path and holds the bytes its download returned. Only that entry's path can join the downloaded set, and only when its file was missing |
| `Bot.WalkKeepsFiles` | bot.py:101-109 | existing files are never overwritten. Every new file is the save path of a manifest entry and holds the bytes that entry's download returned |
| `Bot.WalkOnlyAddsManifests` | bot.py:101-109 | storage and the downloaded set only grow, and new files hold the fetched bytes. A path joins the downloaded set only when its file was missing and has been written |
| `Bot.EntryStepDownloads` | bot.py:101-109 | one entry adds its path to the downloaded set exactly when it is a manifest whose file is missing |
| `Bot.MissingManifests` | bot.py:101-109 | (no contract of its own) reference definition: the manifest entries whose save path is missing from the starting storage |
| `Bot.FetchedFor` | bot.py:98-117 | (no contract of its own) reference definition: in tree order, every key file, and every manifest missing from the starting storage at its first occurrence |
| `Bot.PresentAtTurn` | bot.py:101-103 | at its turn, a manifest's file is present exactly when it was in the starting storage or an earlier entry had the same path |
| `Bot.WalkDownloadsExactlyMissing` | bot.py:101-109 | a running walk's downloaded set is the starting set plus exactly the manifest entries whose file was missing from the starting storage |
| `Bot.WalkFetchesExactlyMissing` | bot.py:101-117 | a running walk fetches, in tree order, exactly the entries `FetchedFor` names. So an entry whose file was already present is not fetched |
| `Bot.WalkStoresEveryManifest` | bot.py:101-109 | after a running walk, every manifest entry of the tree exists in storage |
| `Bot.KeysFor` | bot.py:115-117 | (no contract of its own) reference definition: the parsed keys of the key files among the first entries, in tree order |
| `Bot.WalkCollectsEveryKeyFile` | bot.py:115-117 | every key-file entry is fetched, with no existence check; the key list grows by their parsed keys in tree order |
| `Bot.OtherEntryChangesNothing` | bot.py:98-117 | an ignored entry changes none of keys, map, downloaded set or storage, and fetches nothing |
| `Bot.WalkWithEveryManifestPresent` | bot.py:101-117 | when every manifest entry exists already, the walk runs whenever a walk from any other storage did. It writes and downloads nothing, fetches only key files, and ends with the same keys and depot map |
| `Bot.HandleSpec` | bot.py:74-122 | (no contract of its own) the call as a function of the replies and the starting state. It uses the selection as written, as line 83 does |
| `Bot.NoRepositoryNoResult` | bot.py:83-85 | when no candidate gave a 200 reply with commit data and a readable date, the call returns an empty key list and an empty map and changes nothing |
| `Bot.TreeRequestedIffSomeAccepted` | bot.py:83-96 | with non-empty names, the tree is requested exactly when some candidate was accepted, even one whose reply lacks a sha. A failed tree request then gives an error; with no accepted candidate the result is empty |
| `Bot.DepotMapIsSortedIdsPerDepot` | bot.py:98-122 | on success the map has exactly the depots with recognized manifest entries. Each list is sorted newest first and is a permutation of that depot's ids in the tree |
| `Bot.DownloadsExactlyMissingManifests` | bot.py:60-109 | on success, the downloaded set grows by exactly the manifests whose file was missing, and exactly `FetchedFor` is fetched. From an empty tracked set, as `run` starts, the tracked files that exist are exactly the save paths of those manifests |
| `Bot.SecondRunIsIdempotent` | bot.py:101-113 | a second run over the storage a successful run left behind returns the same result. It downloads and writes nothing, and fetches no manifest |
| `Bot.ManifestStore.constructor` | bot.py:102-103 | local storage starts with exactly the given files, which `save_path.exists()` consults |
| `Bot.ManifestStore.Write` | bot.py:107 | writing stores the bytes under the path and changes no other file |
| `Bot.OnekeyApp.constructor` | bot.py:27-30 | a new app starts with an empty downloaded set |
| `Bot.OnekeyApp.HandleDepotFiles` | bot.py:74-122 | result, downloaded set, storage and fetched paths equal `HandleSpec`. It selects with the code as written. That is: no accepted reply means empty results; a failed tree request means an error; a failed download stops the walk, keeping what was written so far; otherwise the walk's keys and the sorted map |
| `Bot.OnekeyApp.WalkTree` | bot.py:98-117 | the loop over the tree ends in the state `WalkPrefix` gives for the whole tree, or stops at the first failed download |
| `Bot.OnekeyApp.HandleEntry` | bot.py:99-117 | one loop iteration changes the lists, the downloaded set and storage exactly as `EntryStep` says |
| `Bot.OnekeyApp.SortEachDepot` | bot.py:119-120 | sorting key by key yields `SortAll` of the map |
| `Bot.TrackedFiles` | bot.py:61-66 | (no contract of its own) reference definition: the save paths of the tracked files that exist |
| `Bot.OnekeyApp.CollectManifestFiles` | bot.py:60-66 | the returned paths are exactly the save paths of the tracked files that exist, each once |
| `Bot.OnekeyApp.Run` | bot.py:32-72 | clears the downloaded set and sets the locality flag. Returns `(False, [])` on a failed call, an empty key list or a raising configuration tool; otherwise the tool's flag and the tracked files that exist, each once. Those files are exactly the save paths of the tree's manifests that were missing from storage before the call |

## Findings

| source | as written | input that shows it | evidently intended | confidence | as-written member | corrected member |
|---|---|---|---|---|---|---|
| src/network/github.py:78-80 | the date and the repository name are recorded before `r_json["commit"]["sha"]` is read. A reply without "sha" raises after them, and the loop's handler swallows the error, so the result keeps a sha from an earlier reply. | two 200 replies: `owner/one` dated 1 with sha `aaa`, then `owner/two` dated 2 with no "sha"; the result is (`owner/two`, 2, `aaa`) | name, date and sha of the result come from one reply; a reply lacking the sha is skipped like any other malformed reply | low (the hosting API always sends a sha); not executed | `GitHub.AsWrittenMixesReplies` | `GitHub.SelectLatestIsFirstLatest` |

`GitHubApi.GetLatestRepoInfo` and `OnekeyApp.HandleDepotFiles` keep the code as written, since bot.py:83 calls that code. `SelectLatest` is the corrected definition, and `SelectLatestIsFirstLatest` proves the intended property about it. `AsWrittenAgreesWhenShaPresent` shows the two agree whenever every accepted reply carries a sha.

## Left out

- Network, async and time: the HTTP client, `async`/`await`, transport timeouts and logging are all left out. Replies are inputs, and logging has no effect on results.
- `datetime.fromisoformat` date parsing: dates are integers. A date that cannot be read counts as an exception for that candidate. Comparing offset-aware and naive datetimes (a `TypeError`) is not modelled.
- `reset_formatted` (`time.strftime`/`localtime`, line 42): its text depends on the library and the time zone, so it is the `LocalTime` parameter. Its failure (for example `OverflowError`) is modelled as the error reply.
- Rate-limit values of non-integer JSON types: they are left out.
- URL building (`cdn_template.format`, line 96): the client abstracts the URLs. A malformed template, which would raise outside the `try`, is not modelled.
- The CDN lists `CN_CDN_LIST` and `GLOBAL_CDN_LIST`: these constants are not part of this model. They are fields of `CdnConfig`.
- `RegionDetector`, `SteamTools.setup`, `ConfigManager`: their source is not part of this model. The locality flag and the setup outcome are inputs of `Run`.
- The `check_rate_limit` call inside `run` (bot.py:41): its result is discarded.
- `Path.mkdir` of the manifest directory (bot.py:80-81): the model has no directories.
- `Bot.ManifestStore.Write`: storage writes are modelled as never failing. An `OSError` from `save_path.write_bytes` (bot.py:107) would end `handle_depot_files`, and `run` would then return `(False, [])` (bot.py:70-72); that path is not modelled.
- The branch and tree requests of bot.py:90-96 with `raise_for_status`: the tree is an input, and `None` stands for a failed request.
- `parse_manifest_filename` and `parse_key_file`: they are defined in `src/utils/steam.py`, which is not part of this model, so they are function parameters. Their own exceptions are not modelled.
- `pathlib` joining: a save path is `"manifests/" + path`. `pathlib` also drops `.` segments, collapses `//` and lets an absolute path replace the prefix; none of that is modelled. So `Bot.SavePathInjective` holds for the string join only: `a/./b.manifest` and `a/b.manifest` name one file under `pathlib`.
- `str.lower`: only ASCII letters are lowered. Unicode case mappings are not modelled.
- The Discord front end (`OnekeyDiscordBot`, `send_manifests`, `cmd_manifest`, `run()`): it is user interface and chat-platform I/O.
- `Bot.SortDescending`: it states order and permutation, not the stability of Python's sort. Stability matters only for distinct strings with the same integer value, such as `"05"` and `"5"`.
- `Bot.OnekeyApp.HandleDepotFiles`: it requires every recognized manifest id to be a digit string (`NumericIds`). The code does not check this. An id that is not a string of ASCII digits fails this requirement. Some such ids, such as `"abc"`, make `int(x)` raise during the sort, and `run` then returns `(False, [])`. Others, such as `"+5"`, `" 5"` and `"1_0"`, are accepted by `int`; the model does not cover them.
- `Bot.SortAll`: Python dictionaries keep key insertion order; the model's map does not.
- `Bot.OnekeyApp.Run`: set iteration order is unspecified, so the order of the returned files is not stated; only their set, and that none repeats. Region detection raising is not modelled.
