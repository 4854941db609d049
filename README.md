# morecats: near-duplicate cat image detection, modelled in Dafny

morecats is a chat-bot plugin that collects cat pictures. For every image it
receives in a message, the bot does the following:

- it downloads the image and asks a classifier how likely the image shows a cat;
- it ignores the image below a probability of 0.6;
- if a cat's file name is already recorded, it raises that record's count by one;
- otherwise it computes a 96-bit NeuralHash fingerprint and compares it with every stored fingerprint;
- at a similarity of 0.9 or more, the image is treated as a near duplicate and only logged;
- otherwise the image is inserted into the image table, saved to disk, and its fingerprint is appended to the in-memory store.

The store is a list of boolean arrays of at most 10000 rows each. At start-up
it is filled by paging through the table, 10000 rows at a time, in id order.
Fingerprints are persisted as lower-case hexadecimal text.

The project has these modules:

- `Wrappers`: Option and Result.
- `NeuralHash`: the hex codec `bits2hex` / `hex2bits`. Its error cases are the
  ones numpy and Python raise:
  - a length that is not a multiple of 4;
  - a single nibble, which squeezes to a 0-d array;
  - a non-hex character.
- `Similarity`: the per-row score `popcount((NOT q) XOR row) / width`, and the
  maximum score over the rows.
- `Records`: the image table as a sequence of rows in id order, with these SQL statements as functions:
  - the paged `SELECT`;
  - the lookup by file name;
  - the `UPDATE` of the count;
  - the `INSERT`, which enforces the unique constraints on `url` and `filename`.
- `Deduplication`: the store as a class `HashStore` whose field `batches`
  is the list of batches. It has the methods `AddHash`, `HasSimilar`,
  `LoadHashes` (the paging loop, one `LoadRound` per pass) and
  `ReloadHashes`. They are proved against the specification function
  `Load`, and against the relation `Mirrors`: the store holds the decoded
  hash of every table row that has one, in id order.
- `Plugin`, which holds:
  - `HasImages`;
  - the handler as functions (`ImageStep` → `CatStep` → `RecordStep` for one image, `HandleFrom` / `Handle` for a message);
  - the string rules it relies on: `str.strip`, `rsplit(".", 1)`, `split("_")`;
  - the methods `HandleImage` / `HandleImages`, which run the handler against a live `HashStore` and are proved equal to the functions.

The outside world comes in as parameters. For each image, an `ImageIO` value
gives:

- the result of the download and format detection;
- the classifier's probability, or its failure;
- the computed fingerprint;
- whether saving the file succeeded.

## Model

| member | source | states |
|---|---|---|
| NeuralHash.BitsToHex | plugins/morecats/models/neuralhash.py:33-35 | A length that is not a multiple of 4 fails the reshape. Exactly 4 bits fail because the squeezed 0-d array is not iterable. Every other length succeeds, with one lower-case digit per nibble: digit k is the value of bits 4k..4k+3, most significant bit first. |
| NeuralHash.HexToBits | plugins/morecats/models/neuralhash.py:38-40 | Succeeds exactly when every character is a hex digit, and then gives 4 bits per character. |
| NeuralHash.HexToBitsNibbles | plugins/morecats/models/neuralhash.py:38-40 | On success, character k expands to bits 4k..4k+3: the low four bits of its value, most significant first. |
| NeuralHash.HexToBitsRejects | plugins/morecats/models/neuralhash.py:39 | On failure, the error names the first character that int(c, 16) rejects. |
| NeuralHash.RoundTripBits | plugins/morecats/models/neuralhash.py:33-40 | hex2bits(bits2hex(b)) == b for every b that bits2hex accepts. |
| NeuralHash.RoundTripHex | plugins/morecats/models/neuralhash.py:33-40 | bits2hex(hex2bits(h)) == h.lower() for hex text of any length except 1. |
| NeuralHash.DeployedFingerprintRoundTrip | plugins/morecats/models/neuralhash.py:16-40 | A 96-bit fingerprint (the seed matrix is 96 x 128) is stored as 24 digits and read back unchanged. |
| NeuralHash.UnpackPack | morecats/models.py:72-79 | The core's copy of the codec behaves the same way. Decoding the digits that packing produces, for any bit length that is a multiple of 4, gives the bits back. |
| NeuralHash.PackUnpack | morecats/models.py:72-79 | Hex text always decodes, to a multiple of 4 bits. Packing those bits again gives the text in lower case. |
| Similarity.XorCount | morecats/deduplication.py:51 | The popcount of (NOT q) XOR row is at most the width. |
| Similarity.XorCountIsAgreement | morecats/deduplication.py:51 | That popcount equals the number of positions where the two fingerprints agree. |
| Similarity.FullAgreementIsEquality | morecats/deduplication.py:51 | Agreement is at most the width, and equals it exactly when the fingerprints are equal. |
| Similarity.RowScore | morecats/deduplication.py:51 | A row's score lies in [0, 1]. |
| Similarity.ScoreOneIffCopy | morecats/deduplication.py:51 | A row scores 1 exactly when it is a copy of the query. |
| Similarity.ThresholdAsAgreement | plugins/morecats/__init__.py:115 | A score of at least 0.9 means the same as the integer test 10 * agreement >= 9 * width. |
| Similarity.DeployedThreshold | plugins/morecats/__init__.py:115 | For 96-bit fingerprints, a near duplicate is one that agrees on at least 87 bits. |
| Similarity.MaxScore | morecats/deduplication.py:49-54 | The store's score lies in [0, 1]. It is 0 for an empty store. |
| Similarity.MaxScoreIsMaximum | morecats/deduplication.py:49-54 | The store's score is at least every row's score. With at least one row, it equals some row's score. |
| Similarity.MaxScoreConcat | morecats/deduplication.py:50-53 | Scanning two runs of rows one after the other gives the larger of their two scores. This is why a batch-by-batch scan is a scan of all rows. |
| Similarity.AppendNeverLowers | morecats/deduplication.py:57-66 | Appending a fingerprint never lowers any query's score. The new score is the larger of the old score and the new row's score. |
| Similarity.MaxScoreOneIffStored | morecats/deduplication.py:42-54 | A query scores 1 exactly when a copy of it is stored. |
| Similarity.DuplicateIffClose | plugins/morecats/__init__.py:112-116 | The store's score reaches 0.9 exactly when some stored row agrees with the query on at least 90% of its bits. |
| Records.Eligible | morecats/deduplication.py:17-25 | The query returns only rows that have a hash and an id above last_id, and never more rows than the table has. |
| Records.Page | morecats/deduplication.py:17-25 | LIMIT 10000 gives a prefix of the eligible rows of at most the limit. A short page is all of the eligible rows. |
| Records.EligibleMembers | morecats/deduplication.py:22 | A row is returned exactly when it is in the table, has a hash, and has an id above the bound. |
| Records.EligibleSorted | morecats/deduplication.py:23 | ORDER BY id: the result of the query is in ascending id order. |
| Records.EligibleAfter | morecats/deduplication.py:28 | On sorted eligible rows, filtering by the id of row k leaves exactly the rows after it. |
| Records.EligibleTwice | morecats/deduplication.py:22 | Filtering by a and then by a larger b is filtering by b. |
| Records.NextPage | morecats/deduplication.py:26-31 | After a non-empty page, setting last_id to the id of its last row strictly increases the bound. The next query then returns exactly the rows after that page, so no row is skipped or read twice. |
| Records.FindByFilename | plugins/morecats/__init__.py:93-97 | fetch_one by file name gives the first row with that name, or none when no row has it. |
| Records.UpdateCount | plugins/morecats/__init__.py:100-105 | The count UPDATE by file name. Its meaning is given by Plugin.RecordedFileIsRecounted (only the matching row's count changes), Records.UpdateKeepsWellFormed and Deduplication.MirrorsUpdate. |
| Records.Insert | plugins/morecats/__init__.py:119-129 | The INSERT: it fails on a duplicate url or filename, and otherwise appends the row at the next key. Its meaning is given by Records.InsertKeepsWellFormed and Plugin.RecordStepMeaning. |
| Records.InsertKeepsWellFormed | plugins/morecats/database.py:6-16 | A successful INSERT keeps ids sorted and positive, and keeps url and filename unique. The new row gets the next key. |
| Records.UpdateKeepsWellFormed | plugins/morecats/__init__.py:100-105 | The count UPDATE keeps the schema's guarantees. |
| Deduplication.BatchScore | morecats/deduplication.py:51 | bitwise_xor(~bits, batch).sum(1).max() / batch.shape[1] is the largest row score in the batch. |
| Deduplication.FlattenConcat | morecats/deduplication.py:8 | The rows of two lists of batches, one after the other, are the rows of both lists. |
| Deduplication.UniformFlatten | morecats/deduplication.py:8 | All stored rows have width w exactly when every batch's rows have width w. |
| Deduplication.DecodeRowsConcat | morecats/deduplication.py:29 | Decoding a concatenation of rows decodes each part, and fails when either part fails. |
| Deduplication.DecodeRows | morecats/deduplication.py:29 | The list comprehension of hex2bits over the hashed rows. Its meaning is given by Deduplication.DecodeRowsAt and Deduplication.DecodeRowsConcat. |
| Deduplication.ToBatch | morecats/deduplication.py:29 | np.array of one page's decoded rows. It raises on an undecodable hash or on rows of different lengths (see Deduplication.ChunksErrors and Deduplication.ChunksWellShaped). |
| Deduplication.LoadChunks | morecats/deduplication.py:16-31 | The loop of load_hashes over the eligible rows, page by page. Its meaning is given by Deduplication.ChunksComplete, ChunksPartial, ChunksPacked, ChunksErrors and ChunksCount. |
| Deduplication.Load | morecats/deduplication.py:11-31 | load_hashes from last_id = 0. Its meaning is given by Deduplication.LoadContents, LoadShape, LoadErrors and LoadBatchCount. Deduplication.HashStore.LoadHashes is proved to append exactly these batches. |
| Deduplication.DecodeRowsAt | morecats/deduplication.py:29 | Hashed rows decode exactly when every row's hash decodes. The decoded list then has one entry per row: that row's decoded hash. |
| Deduplication.MirrorsMeans | morecats/deduplication.py:29 | The store mirrors the table exactly when it has one fingerprint per hashed row, in id order, and the fingerprint is that row's decoded hash. |
| Deduplication.ChunksWellShaped | morecats/deduplication.py:26-31 | Every batch a load appends is a non-empty rectangular array. |
| Deduplication.ChunksPacked | morecats/deduplication.py:26-31 | Loaded batches hold 1 to 10000 rows, and every batch but the last is full. When the load fails, every appended batch is full. |
| Deduplication.ChunksComplete | morecats/deduplication.py:16-31 | A load without error holds the decoded hash of every hashed row, in order. |
| Deduplication.ChunksPartial | morecats/deduplication.py:16-31 | A failing load appended the full pages before the failing one, decoded. |
| Deduplication.ChunksErrors | morecats/deduplication.py:29 | An undecodable hash makes the load raise. Hashes that all decode to one length never do. |
| Deduplication.ChunksCount | morecats/deduplication.py:24-31 | A complete load of N rows makes ceil(N / 10000) batches. |
| Deduplication.LoadShape | morecats/deduplication.py:11-31 | load_hashes appends non-empty rectangular batches in the packed layout. When it raises, every appended batch is full. |
| Deduplication.LoadContents | morecats/deduplication.py:11-31 | A load that runs to the end holds the decoded hash of every hashed row, in id order. A load cut short by an exception holds the decoded hashes of the full pages before the failing one. |
| Deduplication.LoadErrors | morecats/deduplication.py:29 | load_hashes raises if a stored hash cannot be decoded. It never raises when all hashes decode to one length. |
| Deduplication.LoadBatchCount | morecats/deduplication.py:24-31 | A complete load makes ceil(N / 10000) batches. |
| Deduplication.LoadedStoreMirrors | morecats/deduplication.py:11-31 | A load without error mirrors the table. |
| Deduplication.MirrorsInsert | plugins/morecats/__init__.py:119-131 | Inserting a row that carries a fingerprint's encoding keeps the mirror, once the fingerprint is appended to the store. |
| Deduplication.DecodeRowsUpdate | plugins/morecats/__init__.py:100-105 | Updating a count changes no decoded hash. |
| Deduplication.EligibleUpdate | plugins/morecats/__init__.py:100-105 | Updating a count commutes with the load query. |
| Deduplication.MirrorsUpdate | plugins/morecats/__init__.py:100-105 | A count update keeps the table well formed and keeps the mirror. |
| Deduplication.HashStore.constructor | morecats/deduplication.py:8 | HASHES = []: the store starts empty, well shaped and packed. |
| Deduplication.HashStore.AddHash | morecats/deduplication.py:57-66 | Either a new one-row batch is started, when there is no batch or the last one holds 10000 rows, or the row is appended to the last batch. The width mismatch on which np.append raises leaves the store unchanged. On success, the contents gain exactly the new fingerprint. Uniform widths always succeed. The shape and the packed layout are kept. |
| Deduplication.HashStore.HasSimilar | morecats/deduplication.py:42-54 | The batch-by-batch maximum with a running max from 0 equals MaxScore over all stored rows. It lies in [0, 1], and is 0 for an empty store. |
| Deduplication.HashStore.LoadRound | morecats/deduplication.py:17-31 | One pass of the loop appends what the specification's first round appends. When the loop continues, the rest of the specification continues from the new last_id, which strictly shrinks the remaining rows. |
| Deduplication.HashStore.LoadHashes | morecats/deduplication.py:11-31 | Appends exactly Load(t).batches, reports Load(t).error, and keeps the store well shaped. |
| Deduplication.HashStore.ReloadHashes | morecats/deduplication.py:34-39 | After clear and load, the store is exactly Load(t), so it depends on the table alone, and it is packed. |
| Plugin.HasImages | plugins/morecats/__init__.py:32-36 | True exactly when some segment is an image. |
| Plugin.ExtName | plugins/morecats/image_utils.py:31-33 | Each accepted format's extension is non-empty and has no '.'. |
| Plugin.LeadSpaces | plugins/morecats/__init__.py:64 | The length of the leading whitespace that str.strip removes: all of it is whitespace, and the character after it is not. |
| Plugin.TrailSpaces | plugins/morecats/__init__.py:64 | The same for the trailing whitespace. |
| Plugin.Strip | plugins/morecats/__init__.py:64 | str.strip. Its meaning is given by Plugin.StripMeaning and Plugin.StripPadded. |
| Plugin.IsProbCommand | plugins/morecats/__init__.py:64 | The test re.match("^/cat_prob$", text.strip()). Its meaning is given by Plugin.ProbCommandMeaning. |
| Plugin.StripMeaning | plugins/morecats/__init__.py:64 | The text is the leading whitespace, then the stripped text, then the trailing whitespace. A non-empty stripped text begins and ends with non-whitespace. |
| Plugin.StripPadded | plugins/morecats/__init__.py:64 | Stripping whitespace from around a text that has none at its ends gives that text back. |
| Plugin.ProbCommandMeaning | plugins/morecats/__init__.py:63-65 | A text segment asks for the report exactly when it is /cat_prob surrounded only by whitespace. |
| Plugin.FirstIndexOf | plugins/morecats/__init__.py:124 | Gives the first position of the character, or none when the character is absent. |
| Plugin.LastIndexOf | plugins/morecats/__init__.py:77 | Gives the last position of the character, or none when the character is absent. |
| Plugin.Split | plugins/morecats/__init__.py:124 | str.split(sep) gives at least one part, no part contains sep, and joining the parts with sep gives the text back. |
| Plugin.RSplitOnce | plugins/morecats/__init__.py:77 | rsplit(".", 1) gives one or two parts, which join back to the text. There is one part exactly when the text has no '.'. Otherwise the second part has no '.', so the split is at the last '.'. |
| Plugin.RewriteExtension | plugins/morecats/__init__.py:77 | The file-name rewrite. Its meaning is given by Plugin.RewriteExtensionMeaning and Plugin.RewriteExtensionTwice. |
| Plugin.RewriteExtensionMeaning | plugins/morecats/__init__.py:77 | The file name keeps everything before its last '.', and the detected extension goes after that '.'. A name without '.' becomes the extension alone. |
| Plugin.RewriteExtensionTwice | plugins/morecats/__init__.py:77 | Rewriting twice with the same extension is rewriting once. |
| Plugin.GroupId | plugins/morecats/__init__.py:124 | The group_id argument of the INSERT. Its meaning is given by Plugin.GroupIdMeaning. |
| Plugin.GroupIdMeaning | plugins/morecats/__init__.py:108-124 | A private chat (session id == user id) gets no group. Otherwise the group id is the text after the first '_' of the session id, up to the next '_' or the end. A session id without '_' raises IndexError. |
| Plugin.NewRecord | plugins/morecats/__init__.py:120-128 | The row handle_images inserts, with the keyword arguments evaluated in order. Its meaning is given by Plugin.RecordStepMeaning. |
| Plugin.ImageStep | plugins/morecats/__init__.py:67-132 | One image leaves the store unchanged, or appends exactly its fingerprint, which happens only for a new cat. Fingerprint widths stay uniform. |
| Plugin.CatStep | plugins/morecats/__init__.py:93-131 | A cat leaves the store unchanged, or appends exactly its fingerprint, which happens only for a new cat. |
| Plugin.RecordStep | plugins/morecats/__init__.py:119-131 | A new cat leaves the store unchanged, or appends exactly its fingerprint, which happens only on success. |
| Plugin.EarlyReturnChangesNothing | plugins/morecats/__init__.py:71-87 | A failed download or prediction returns from the handler with the table and the store unchanged. |
| Plugin.NotCatChangesNothing | plugins/morecats/__init__.py:89-91 | An image is skipped exactly when its probability is below 0.6. A skipped image changes nothing and records its probability. |
| Plugin.RecordedFileIsRecounted | plugins/morecats/__init__.py:93-106 | A cat whose rewritten file name is recorded has that row's count raised by exactly one. No other row and no stored fingerprint change. |
| Plugin.NewFileByScore | plugins/morecats/__init__.py:107-119 | A cat with a new file name and a score of at least 0.9 changes nothing. One that scores below 0.9 goes on to be recorded, and is never reported as similar. |
| Plugin.RecordStepMeaning | plugins/morecats/__init__.py:119-131 | The insert fails on an unencodable fingerprint or on a session id without a group. It is rejected exactly when the url is already recorded. Otherwise, exactly one row is appended, with the next key, the hex hash, the group, the user, the time and count 1. The fingerprint is appended to the store exactly on success, and success requires that the file was saved. |
| Plugin.RecordStepMirrors | plugins/morecats/__init__.py:119-131 | A new-cat step keeps the table well formed and the store mirroring it. The exception is when saving raises after the INSERT: the store then lacks exactly the new fingerprint. |
| Plugin.RecountMirrors | plugins/morecats/__init__.py:99-106 | A recount keeps the table well formed and the mirror. |
| Plugin.CatStepMirrors | plugins/morecats/__init__.py:93-131 | The same mirror property for every branch a cat can take. |
| Plugin.ImageStepMirrors | plugins/morecats/__init__.py:67-132 | The same mirror property for every outcome of one image. |
| Plugin.HandleFrom | plugins/morecats/__init__.py:62-138 | The segment loop from a given segment on. Its meaning is given by Plugin.ReportIffAsked, ProbsInOrder, StopIgnoresRest and HandleMirrors. |
| Plugin.Handle | plugins/morecats/__init__.py:56-138 | handle_images on one message. Plugin.HandleImages is proved to compute it. |
| Plugin.AsksForReportCons | plugins/morecats/__init__.py:62-65 | A message asks for the report exactly when its first segment or some later segment is /cat_prob. |
| Plugin.CompletedStepProb | plugins/morecats/__init__.py:71-91 | An image step that completes had a download and a prediction, and put the prediction on probs. |
| Plugin.ReportIffAsked | plugins/morecats/__init__.py:62-138 | The report is sent exactly when the loop ran to the end and some segment was /cat_prob. It lists the probs gathered. |
| Plugin.ProbsInOrder | plugins/morecats/__init__.py:83-86 | A message handled to the end lists one probability per image, in segment order. |
| Plugin.StopIgnoresRest | plugins/morecats/__init__.py:71-87 | After an early stop, the segments that follow have no effect. |
| Plugin.HandleMirrors | plugins/morecats/__init__.py:56-132 | Over a whole message the table stays well formed, and the old store is a prefix of the new one. The store mirrors the table unless a save failed. |
| Plugin.HandleImage | plugins/morecats/__init__.py:67-132 | The step against the live store: HasSimilar supplies the score and AddHash performs the append. Table, probability, verdict and store contents are those of ImageStep, and the store stays well shaped. |
| Plugin.HandleImages | plugins/morecats/__init__.py:56-138 | The loop over the segments, with its early returns, gives the table, report, stop reason and store contents of Handle. The store stays well shaped. |

## Left out

- ONNX inference, the cat classifier and the NeuralHash network are inputs. Each image's probability (or failure) and its fingerprint are fields of `ImageIO`. The float32 arithmetic of the projection is not modelled.
- HTTP download, `imghdr` format detection and PIL decoding are the `download` field of `ImageIO`. `save_image` is its `saved` field, including the case where no image directory is configured and nothing is written. File contents are not modelled.
- Similarity is computed over exact reals, not numpy float64. In the width-0 case numpy's NaN never raises the running maximum, so it is modelled as 0.0.
- NeuralHash.HexToBits: `int(c, 16)` also accepts Unicode decimal digits other than ASCII 0-9. Only ASCII hex digits are accepted here.
- `event.time` is kept as an integer. The conversion by `datetime.fromtimestamp` is not modelled.
- async/await, the event loop and `run_sync` are not modelled: every database call and store operation is one atomic step, and concurrent handlers are out of scope. The plugin imports its own `.deduplication` module, which is not part of this model. It is taken to be the same code as morecats/deduplication.py, on the plugin's table, with `has_similar` giving its score directly.
- The plugin's database connection (plugins/db.py) and configuration are not part of this model. The table is a value, and the SQL column length limits (String(64) and the like) are not enforced.
- Logging, the timing of the log lines, the text formatting of the probability report (`{p:.4f}`), the `猫猫` command, random cat retrieval and the wordcloud plugin are left out.
- `image.close()` is left out. In Python it has no effect on the result.
- Plugin.HandleImages, Plugin.HandleFrom, Plugin.ImageStep and Deduplication.HashStore.HasSimilar require every fingerprint to have one width, as calc_bits always gives 96 bits. On mismatched widths numpy's broadcasting or error behaviour is not modelled.
- Plugin.HandleImages takes this width as a ghost parameter.
- Plugin.ImageStep: on a failed prediction the -1 appended to probs is recorded. It is never observable, because the handler returns before the report.
- Deduplication.HashStore.LoadRound: states its effect on the batches, not that the store stays well shaped. That is proved once, for the whole loop, in LoadHashes.
- Deduplication.HashStore.AddHash: a width mismatch with the last batch is the exception np.append raises along axis 0. The model reports it as ok == false, with the store unchanged, rather than as an exception.
- An exception from `hash_model.calc_bits` inside `find_similarity` is not modelled: `ImageIO.bits` always holds a fingerprint. In the source this exception ends `handle_images` without a report.
- Database errors (a failing connection or statement) are not modelled, because the table is a value and every query succeeds. In `load_hashes` a failing `db.fetch_all` would raise with the batches of the earlier pages already appended. In the handler a failing `fetch_one` or `execute` would end the message without a report.
- Records.NextId: the key a new row receives is taken as one more than the largest key, 1 in an empty table. The plugin connects to whatever URL its configuration names (plugins/db.py is not part of this model), and keys are not modelled per backend.
