# WebP Converter SDK: parameter validation and request shaping

This project models the client-side logic of the WebP Converter SDK in two
of its languages and proves properties of it.

- **The Java (Android) client**, `WebPConverterAPIClient`:
  - the API key checks of the constructor;
  - the static rule table and `validateParams`, which walks the table and collects every violation before throwing a `ValidationException`;
  - `getMimeType`;
  - the query string that `executeGet` builds;
  - `handleResponse`, which reads the body line by line and classifies it by status;
  - the multipart body of `executeWithFile`, including its 4096-byte copy loop.
- **The Go client's** `Request` record:
  - `Validate`, which walks the five struct fields in declaration order and treats a zero value as absent;
  - `ToQueryParams`, which writes every non-zero field under its json name.

Both clients share one rule record, one set of violation reports and one
failure message. These live in `rules.dfy`. The regular expressions of the
format table are written out as character predicates in `patterns.dfy`, in
a Java and a Go dialect. The dialects differ in what `\s` and `.` match and
in whether the whole value must match.

Files:

- `wrappers.dfy`: Option and Result.
- `text.dfy`: join, split, decimal text, ASCII lower-casing and character removal.
- `patterns.dfy`: the format predicates.
- `rules.dfy`: rules, violations and their texts.
- `java_validation.dfy`: the Java validator, and the facts about it in every iteration order of its hash map.
- `java_client.dfy`: key checks, MIME types, the GET request, response reading and the upload.
- `go_types.dfy`: the Go validator and query builder, and the facts about them for the `Request` record.
- `cross_client.dfy`: where the two clients agree and where they differ.

Steps that change state are methods whose `ensures` ties the result to a
specification function over the inputs. These are the validation loops,
the query-string loop, the `readLine` loop, the enum loop, the file-copy
loop and the map-filling loop. Lemmas about those functions state what
the source promises. Each step of a validation loop is written twice on
purpose: the function is the specification and the method is the
iteration as the source writes it, proved equal to it (`CheckParam` for
`CheckRule`, `TypeChecks` for `CheckType`, `KindChecks` for `CheckKind`,
`FieldChecks` for `CheckField`).

Not everything is deterministic on its own.

- **Inputs standing in for the outside world.** The server's answer (`Reply`), the file (`FileRef`), the UUID text and stream failures are inputs. Java's `HashMap` iteration order is an input sequence that must be an enumeration of the map's entries.
- **Parameters standing in for library calls.** `URLEncoder.encode` and `Double.parseDouble` are function parameters.

## Model

| member | source | states |
|---|---|---|
| Text.Split | go/types.go:84 | Splitting always yields at least one piece, so taking the first piece of a tag never fails |
| Text.LastIndexOf | android/src/main/java/com/apiverve/webpconverter/APIClient.java:361 | The result is -1 or an index of the character, and no later index holds it |
| Text.LowerAscii | android/src/main/java/com/apiverve/webpconverter/APIClient.java:361 | Lower-casing keeps the length and maps each character through the ASCII lower-case table |
| Text.RemoveAll | android/src/main/java/com/apiverve/webpconverter/APIClient.java:125 | After the replace no hyphen remains, every other character keeps its count, and the length drops by the number of hyphens |
| Text.NatTextRoundTrip | go/types.go:95 | Reading the decimal text of a number back gives the number |
| Text.NatTextNoLeadingZero | go/types.go:95 | The decimal text starts with '0' only for zero |
| Text.SplitJoin | android/src/main/java/com/apiverve/webpconverter/APIClient.java:231-239 | Splitting a join on its separator gives back the elements, provided none contains the separator |
| Patterns.Email | android/src/main/java/com/apiverve/webpconverter/APIClient.java:101 | Defines the email pattern, which Go declares alike: no white space in the dialect's sense of \s, one '@' with text before it, and after it a '.' that neither starts nor ends the domain |
| Patterns.Url | android/src/main/java/com/apiverve/webpconverter/APIClient.java:102 | Defines the url pattern: "http://" or "https://", then at least one character; Java's whole-value match makes every later character a non-terminator, Go's prefix match only the first |
| Patterns.IPv4 | android/src/main/java/com/apiverve/webpconverter/APIClient.java:103 | Defines the first ip alternative: four dot-separated octets, each a numeral of one to three digits of value at most 255 |
| Patterns.IPv6 | android/src/main/java/com/apiverve/webpconverter/APIClient.java:103 | Defines the second ip alternative: eight colon-separated groups of one to four hex digits, without the "::" shorthand |
| Patterns.Date | android/src/main/java/com/apiverve/webpconverter/APIClient.java:104 | Defines the date pattern: four digits, '-', two digits, '-', two digits, and nothing else |
| Patterns.HexColor | android/src/main/java/com/apiverve/webpconverter/APIClient.java:105 | Defines the hexColor pattern: an optional '#' and then exactly three or six hex digits |
| Patterns.OctetIsByteNumeral | android/src/main/java/com/apiverve/webpconverter/APIClient.java:103 | The octet alternatives of the ip pattern accept exactly the one- to three-digit numerals with a value of at most 255 |
| Patterns.FormatTableKeys | android/src/main/java/com/apiverve/webpconverter/APIClient.java:99-107 | A format has a pattern exactly when it is one of email, url, ip, date and hexColor |
| Patterns.UrlDialectsDiffer | go/types.go:41 | A url whose text goes on past a line feed passes Go's prefix match but fails Java's whole-value match |
| Patterns.EmailDialectsDiffer | go/types.go:40 | An address holding a vertical tab passes in Go but not in Java, whose \s includes that character |
| Patterns.HexColorExamples | go/types.go:44 | Three or six hex digits pass with or without '#'; four digits fail |
| Patterns.DateExamples | go/types.go:43 | Only the digit layout of a date is checked: month 13 and day 45 pass, a one-digit month fails |
| Patterns.BareSchemeRejected | go/types.go:41 | "http://" or "https://" with nothing after it is not a url, in either dialect |
| Patterns.EmailExamples | go/types.go:40 | In both dialects "a@b.co" is an email address and "not-an-email" is not |
| Rules.MessageWith | android/src/main/java/com/apiverve/webpconverter/APIClient.java:152-190 | Defines the text of each report, as both clients write it (go/types.go:137-190); the client's own rendering of a numeric bound is a parameter |
| Rules.MessageNamesParam | android/src/main/java/com/apiverve/webpconverter/APIClient.java:152-190 | Every report text names its parameter in square brackets right after the fixed lead-in |
| Rules.FailureMessage | android/src/main/java/com/apiverve/webpconverter/APIClient.java:61 | Defines the failure message of both clients (go/types.go:31): "Validation failed: " and the report texts joined with "; " |
| Rules.FailureMessageShape | android/src/main/java/com/apiverve/webpconverter/APIClient.java:60-62 | The failure message starts with "Validation failed: "; for one error it is that error, and each further error adds "; " and its text |
| JavaValidation.TypeChecks | android/src/main/java/com/apiverve/webpconverter/APIClient.java:159-185 | Defines the type-specific reports: for a numeric type the parse failure or the violated bounds, for a String value of a string rule the length and format reports, and nothing otherwise |
| JavaValidation.EnumCheck | android/src/main/java/com/apiverve/webpconverter/APIClient.java:188-192 | Defines the enum report: one when the list is non-empty and the value's text is not in it |
| JavaValidation.CheckParam | android/src/main/java/com/apiverve/webpconverter/APIClient.java:148-192 | Defines what one rule reports about one value: the missing report alone, nothing for an absent value, or the type reports followed by the enum report |
| JavaValidation.Violations | android/src/main/java/com/apiverve/webpconverter/APIClient.java:145-193 | Defines the reports of a walk over the entries, each entry's reports in turn |
| JavaValidation.CheckParamNames | android/src/main/java/com/apiverve/webpconverter/APIClient.java:151-192 | Every report that one rule makes names the parameter being checked |
| JavaValidation.CheckType | android/src/main/java/com/apiverve/webpconverter/APIClient.java:159-185 | The type-specific branch collects, in source order, the bound, length and format reports of the rule |
| JavaValidation.CheckRule | android/src/main/java/com/apiverve/webpconverter/APIClient.java:146-192 | One iteration reports the missing value alone for a required key, nothing for an absent key, and otherwise the type checks followed by the enum check |
| JavaValidation.ValidateParams | android/src/main/java/com/apiverve/webpconverter/APIClient.java:139-198 | The validator throws exactly when some rule reports something, and the ValidationException carries all reports of the walk in order |
| JavaValidationFacts.FormatReported | android/src/main/java/com/apiverve/webpconverter/APIClient.java:172-184 | A present value is reported against a format exactly when the rule is a string rule with that format, the value is a String, and the pattern refuses it; a matching value gets no format report |
| JavaValidationFacts.EnumReported | android/src/main/java/com/apiverve/webpconverter/APIClient.java:188-192 | A present value gets the enum report exactly when the list is non-empty and the value's text is not in it, so every listed value passes |
| JavaValidationFacts.EntrySetDistinct | android/src/main/java/com/apiverve/webpconverter/APIClient.java:145 | An iteration of the table's entry set never repeats a key |
| JavaValidationFacts.SameEntrySet | android/src/main/java/com/apiverve/webpconverter/APIClient.java:145 | Any two iteration orders of one table are rearrangements of each other |
| JavaValidationFacts.OrderIrrelevant | android/src/main/java/com/apiverve/webpconverter/APIClient.java:145 | Rearranging the entries rearranges the reports: both orders report the same multiset |
| JavaValidationFacts.NamedViolations | android/src/main/java/com/apiverve/webpconverter/APIClient.java:145-193 | The reports about one key are exactly that key's rule's reports, and none for a key the table lacks, in every iteration order |
| JavaValidationFacts.RequiredMissingReported | android/src/main/java/com/apiverve/webpconverter/APIClient.java:151-154 | A required key that is absent or empty gets exactly one report, the missing one |
| JavaValidationFacts.AbsentOrUnknownSilent | android/src/main/java/com/apiverve/webpconverter/APIClient.java:156 | An absent optional key and a key outside the table contribute no report |
| JavaValidationFacts.OnlyTableKeysExamined | android/src/main/java/com/apiverve/webpconverter/APIClient.java:145-148 | Two parameter maps that agree on the table's keys get the same reports, so extra keys are never examined |
| JavaValidationFacts.TableKeys | android/src/main/java/com/apiverve/webpconverter/APIClient.java:89-97 | The table has exactly the five keys image, outputFormat, quality, maxWidth and maxHeight |
| JavaValidationFacts.TableValues | android/src/main/java/com/apiverve/webpconverter/APIClient.java:91-95 | The table's rules: two required strings, and three optional integers bounded by [1, 100], [1, 10000] and [1, 10000] |
| JavaValidationFacts.ShapeIsEntrySet | android/src/main/java/com/apiverve/webpconverter/APIClient.java:89-97 | The declared insertion order is one iteration order of the table |
| JavaValidationFacts.RequiredStringRule | android/src/main/java/com/apiverve/webpconverter/APIClient.java:151-185 | The image and outputFormat rule reports the missing value when the value is absent or empty, and nothing otherwise |
| JavaValidationFacts.RangedRule | android/src/main/java/com/apiverve/webpconverter/APIClient.java:160-171 | An integer rule bounded by [1, hi] reports nothing exactly when the value is absent or a number within the bounds |
| JavaValidationFacts.DeclaredNullReports | android/src/main/java/com/apiverve/webpconverter/APIClient.java:143-156 | In the declared order, a null map reports image and then outputFormat missing, and nothing else |
| JavaValidationFacts.LikeDeclared | android/src/main/java/com/apiverve/webpconverter/APIClient.java:145 | Every iteration order reports the same multiset of violations as the declared order |
| JavaValidationFacts.NullParametersReportBothRequired | android/src/main/java/com/apiverve/webpconverter/APIClient.java:143-154 | A null parameter map gets exactly the two missing reports, for image and outputFormat, in some order |
| JavaValidationFacts.DeclaredAcceptance | android/src/main/java/com/apiverve/webpconverter/APIClient.java:139-197 | In the declared order, there are no reports exactly when both strings are present and non-empty and each number is absent or within its bounds |
| JavaValidationFacts.AcceptanceExact | android/src/main/java/com/apiverve/webpconverter/APIClient.java:139-197 | Nothing is thrown exactly when both strings are present and non-empty and each number is absent or within its bounds, in every iteration order |
| JavaValidationFacts.NumericKeyRule | android/src/main/java/com/apiverve/webpconverter/APIClient.java:93-95 | quality, maxWidth and maxHeight are optional integers bounded below by 1 and above by 100, 10000 and 10000 |
| JavaValidationFacts.RangedReports | android/src/main/java/com/apiverve/webpconverter/APIClient.java:160-171 | A value that does not parse gets only the type report; otherwise the reports are exactly the at-least report when below 1 followed by the at-most report when above hi, each at most once |
| JavaValidationFacts.NumericReports | android/src/main/java/com/apiverve/webpconverter/APIClient.java:160-171 | The same holds for the reports about a numeric key in the full walk, in every iteration order |
| JavaValidationFacts.RangedWhole | android/src/main/java/com/apiverve/webpconverter/APIClient.java:163-168 | For a whole number, the rule reports nothing exactly within [1, hi], a lone at-least report below 1, and a lone at-most report above hi |
| JavaValidationFacts.WholeNumberBounds | android/src/main/java/com/apiverve/webpconverter/APIClient.java:163-168 | In the full walk, a whole number passes exactly within [1, hi] (so 1 and 100 pass for quality); 0 gets a lone at-least report |
| JavaValidationFacts.NaNPasses | android/src/main/java/com/apiverve/webpconverter/APIClient.java:162-168 | A string that parses to NaN compares false with both bounds, so it passes |
| JavaValidationFacts.HundredBound | android/src/main/java/com/apiverve/webpconverter/APIClient.java:167 | The Double bound 100 prints as "100.0" |
| JavaValidationFacts.BelowMinText | android/src/main/java/com/apiverve/webpconverter/APIClient.java:164 | The quality minimum is reported with the text "at least 1.0" |
| JavaValidationFacts.AboveMaxText | android/src/main/java/com/apiverve/webpconverter/APIClient.java:167 | The quality maximum is reported with the text "at most 100.0" |
| JavaValidationFacts.EmptyTableAcceptsAll | android/src/main/java/com/apiverve/webpconverter/APIClient.java:140 | An empty table accepts every parameter map |
| JavaClient.NewClient | android/src/main/java/com/apiverve/webpconverter/APIClient.java:114-132 | Defines the constructor: the missing-key, format and too-short checks in that order, each with its message, and otherwise the client with the key and the fixed base URL |
| JavaClient.TrimEmpty | android/src/main/java/com/apiverve/webpconverter/APIClient.java:115 | A key trims to nothing exactly when all its characters are at or below ' ' |
| JavaClient.KeyAccepted | android/src/main/java/com/apiverve/webpconverter/APIClient.java:114-132 | A key is accepted exactly when it is non-empty, uses only [A-Za-z0-9-], and has at least 32 characters besides its hyphens; the client keeps the key and the fixed base URL |
| JavaClient.KeyRejections | android/src/main/java/com/apiverve/webpconverter/APIClient.java:115-128 | A null or blank key gets the missing-key message, a bad character the format message, and fewer than 32 non-hyphen characters the too-short message, in that order |
| JavaClient.ShortKeyRejected | android/src/main/java/com/apiverve/webpconverter/APIClient.java:125-128 | "short-key" is rejected as too short |
| JavaClient.SpacedKeyRejected | android/src/main/java/com/apiverve/webpconverter/APIClient.java:120-122 | A key holding a space is rejected as malformed |
| JavaClient.GuidKeyAccepted | android/src/main/java/com/apiverve/webpconverter/APIClient.java:124-131 | Every GUID-shaped key, with groups of 8, 4, 4, 4 and 12 characters, has 36 characters and is accepted |
| JavaClient.MimeType | android/src/main/java/com/apiverve/webpconverter/APIClient.java:360-378 | Defines getMimeType: the switch on the lower-cased text after the last '.', or on the whole name when it has no '.' |
| JavaClient.MimeTypeKnown | android/src/main/java/com/apiverve/webpconverter/APIClient.java:360-378 | Every file name gets one of the seven types, and the generic type exactly when the lower-cased extension is not one of the seven listed |
| JavaClient.MimeTypeLastExtension | android/src/main/java/com/apiverve/webpconverter/APIClient.java:361 | Only the text after the last '.' decides the type |
| JavaClient.MimeTypeNoDot | android/src/main/java/com/apiverve/webpconverter/APIClient.java:361 | A name without a dot is looked up whole |
| JavaClient.MimeTypeIgnoresCase | android/src/main/java/com/apiverve/webpconverter/APIClient.java:361 | Lower-casing the name does not change its type |
| JavaClient.UpperCaseJpeg | android/src/main/java/com/apiverve/webpconverter/APIClient.java:361-365 | "photo.JPG" maps to image/jpeg |
| JavaClient.BareExtension | android/src/main/java/com/apiverve/webpconverter/APIClient.java:361-367 | "png" maps to image/png |
| JavaClient.DoubleExtension | android/src/main/java/com/apiverve/webpconverter/APIClient.java:361-377 | "archive.tar.gz" maps to application/octet-stream |
| JavaClient.RequestUrl | android/src/main/java/com/apiverve/webpconverter/APIClient.java:225-241 | Defines the GET URL: the base URL alone without pairs, otherwise the base, '?' and the encoded pairs joined by '&' |
| JavaClient.BuildUrl | android/src/main/java/com/apiverve/webpconverter/APIClient.java:225-241 | The URL is the base URL for a null or empty map, and otherwise the base, '?', and the encoded key=value pairs joined by '&', one per entry |
| JavaClient.QueryRoundTrip | android/src/main/java/com/apiverve/webpconverter/APIClient.java:228-240 | Splitting the query on '&' and each pair on '=' gives back every encoded key and value, with nothing before the first pair or after the last |
| JavaClient.LinesJoined | android/src/main/java/com/apiverve/webpconverter/APIClient.java:268-272 | Appending every line readLine returns gives the text without its '\r' and '\n' characters, and nothing else is dropped |
| JavaClient.LineReader.ReadLine | android/src/main/java/com/apiverve/webpconverter/APIClient.java:270 | readLine returns null at the end, and otherwise the next line without its terminator, consuming both |
| JavaClient.ResponseOutcome | android/src/main/java/com/apiverve/webpconverter/APIClient.java:259-287 | Defines handleResponse's result: the text without line breaks for status 200, the HTTP error with status and text otherwise, and a processing failure when there is no status or the stream cannot be read |
| JavaClient.HandleResponse | android/src/main/java/com/apiverve/webpconverter/APIClient.java:257-287 | Status 200 returns the text of the lines read, any other status throws an HTTP error with the status and that text, and any other failure is wrapped as a processing failure |
| JavaClient.ResponseBody | android/src/main/java/com/apiverve/webpconverter/APIClient.java:268-281 | Success happens exactly for status 200; the body then holds no line breaks and equals the server's text when that had none; otherwise the error carries the status code and the text |
| JavaClient.ExecuteGet | android/src/main/java/com/apiverve/webpconverter/APIClient.java:223-255 | The GET request carries the built URL, the two headers and the timeouts, and any failure is rewrapped |
| JavaClient.GetFailures | android/src/main/java/com/apiverve/webpconverter/APIClient.java:252-253 | Every GET failure surfaces as a "Network error: " exception carrying no status code of its own (the model's reading of the two-argument APIException constructor); an HTTP error keeps its code and text only in the cause |
| JavaClient.Execute | android/src/main/java/com/apiverve/webpconverter/APIClient.java:207-212 | A request is sent exactly when the parameters pass validation; otherwise the ValidationException with every report is thrown |
| JavaClient.ExecuteWithoutParameters | android/src/main/java/com/apiverve/webpconverter/APIClient.java:219-221 | execute() sends nothing and fails with image and outputFormat reported missing |
| JavaClient.CodeUnits | android/src/main/java/com/apiverve/webpconverter/APIClient.java:320 | A character below U+10000 is one UTF-16 char, any other two: a high surrogate followed by a low surrogate |
| JavaClient.WriteBytesLength | android/src/main/java/com/apiverve/webpconverter/APIClient.java:320-323 | writeBytes writes one byte per UTF-16 char, that is String.length() bytes |
| JavaClient.WriteBytesBasicPlane | android/src/main/java/com/apiverve/webpconverter/APIClient.java:320-323 | Text below U+10000 is written one byte per character, the low eight bits of each |
| JavaClient.WriteBytesLatin1 | android/src/main/java/com/apiverve/webpconverter/APIClient.java:320-323 | Text below U+0100 is written byte for byte; a larger character loses all but its low byte, so U+0142 is written like "B", and U+1F600 is written as the low bytes 0x3D and 0x00 of its two surrogates |
| JavaClient.MultipartBody | android/src/main/java/com/apiverve/webpconverter/APIClient.java:320-335 | Defines the request body: the bytes of the part header, the file's bytes, and the bytes of the closing lines |
| JavaClient.MultipartLayout | android/src/main/java/com/apiverve/webpconverter/APIClient.java:320-335 | The body is the part header, then the file's bytes unchanged, then the closing delimiter |
| JavaClient.FileSource.Read | android/src/main/java/com/apiverve/webpconverter/APIClient.java:329 | read gives -1 at the end of the file, and otherwise between one and the buffer's length of the next bytes, copied to the front of the buffer |
| JavaClient.OutputSink.WriteBytes | android/src/main/java/com/apiverve/webpconverter/APIClient.java:320 | writeBytes appends the low byte of each UTF-16 char of the text |
| JavaClient.OutputSink.Write | android/src/main/java/com/apiverve/webpconverter/APIClient.java:330 | write appends the given slice of the buffer |
| JavaClient.WritePartHead | android/src/main/java/com/apiverve/webpconverter/APIClient.java:320-323 | The four header writes append exactly the part header's bytes |
| JavaClient.WritePartTail | android/src/main/java/com/apiverve/webpconverter/APIClient.java:334-335 | The two closing writes append exactly the bytes of the line end and the closing delimiter |
| JavaClient.CopyFile | android/src/main/java/com/apiverve/webpconverter/APIClient.java:326-332 | Whatever chunk sizes the stream chooses, the copy loop appends exactly the file's bytes, in order, and reads to the end |
| JavaClient.ExecuteWithFile | android/src/main/java/com/apiverve/webpconverter/APIClient.java:296-345 | A null or missing file is rejected before anything is sent; a stream failure becomes a "File upload error: " exception; otherwise the POST carries the multipart body with boundary "----" plus the UUID |
| JavaClient.ExecuteWithFileDefault | android/src/main/java/com/apiverve/webpconverter/APIClient.java:353-355 | The one-argument upload names the field "image" |
| JavaClient.UploadFailures | android/src/main/java/com/apiverve/webpconverter/APIClient.java:339-343 | An upload's HTTP error reaches the caller with its status code, and a missing status line keeps its processing message |
| GoTypes.KindChecks | go/types.go:146-177 | Defines the type switch's reports: the violated bounds of NumValue for a numeric type, the length and format reports of reflect's String() for a string type, and nothing otherwise |
| GoTypes.EnumChecks | go/types.go:180-192 | Defines the enum report: one when the list is non-empty and the field's %v text is not in it |
| GoTypes.RuleChecks | go/types.go:136-192 | Defines what one rule reports about one field: the missing report for a zero required field, nothing for another zero field, otherwise the type reports followed by the enum report |
| GoTypes.FieldChecks | go/types.go:124-192 | Defines what one field contributes: nothing without a tag or without a rule for its json name, otherwise its rule's reports |
| GoTypes.EnumContains | go/types.go:182-188 | The enum loop finds the text exactly when it is one of the allowed values |
| GoTypes.CheckKind | go/types.go:146-177 | The type switch collects, in source order, the bound, length and format reports of the rule |
| GoTypes.CheckField | go/types.go:121-192 | One iteration skips an untagged field or an unknown name, reports a zero required field missing, skips any other zero field, and otherwise runs the type and enum checks |
| GoTypes.NoRulesNoReports | go/types.go:112-114 | With no rules, no field reports anything |
| GoTypes.ValidateFields | go/types.go:112-198 | The loop returns an error exactly when some field reports something, and the error holds the texts of all reports in field order |
| GoTypes.Validate | go/types.go:103-199 | Validate returns nil exactly when the request's fields report nothing, and otherwise the error with every report's text |
| GoTypes.QueryParams | go/types.go:74-96 | Defines the query map left by the field loop: each tagged, non-"-", non-zero field writes its %v text under its json name, a later field overwriting an earlier one |
| GoTypes.QueryParamsKeys | go/types.go:74-96 | A key is in the map exactly when some tagged field with that name, not "-", holds a non-zero value |
| GoTypes.QueryParamsValue | go/types.go:95 | A key's value is the %v text of the last field that writes it |
| GoTypes.WriteFields | go/types.go:74-96 | The field loop builds exactly the query map of the fields |
| GoTypes.ToQueryParams | go/types.go:65-99 | A nil request gives the empty map, and any other request the query map of its fields |
| GoFacts.NamedTag | go/types.go:84 | The json name of a tag is the name before the first comma |
| GoFacts.FieldsShape | go/types.go:55-61 | The request's fields are named image, outputFormat, quality, maxWidth and maxHeight, in that order, and carry the request's values |
| GoFacts.GoRulesShape | go/types.go:104-110 | Validate's table gives each name its rule |
| GoFacts.RequiredField | go/types.go:136-139 | A required string field reports the missing value when it is empty, and nothing otherwise |
| GoFacts.RangedField | go/types.go:141-160 | An optional integer field reports nothing when zero, and otherwise one report per violated bound of [1, hi] |
| GoFacts.ShapeViolations | go/types.go:120-193 | Fields named like the request's report image, outputFormat, quality, maxWidth and maxHeight in that order |
| GoFacts.RequestViolations | go/types.go:120-193 | Validate reports the fields in declaration order, each as its rule says |
| GoFacts.RequestAccepted | go/types.go:103-199 | Validate accepts a request exactly when both strings are non-empty and each number is zero or within its bounds |
| GoFacts.FormatReported | go/types.go:162-176 | A non-zero field is reported against a format exactly when the rule is a string rule with that format and the pattern refuses reflect's String() of the field; a matching value gets no format report |
| GoFacts.EnumReported | go/types.go:180-192 | A non-zero field gets the enum report exactly when the list is non-empty and its %v text is not in it, so every listed text passes |
| GoFacts.ZeroQualityPasses | go/types.go:141-143 | A zero quality counts as absent and passes |
| GoFacts.NegativeQuality | go/types.go:155-157 | Quality -5 gives the single report "Parameter [quality] must be at least 1" |
| GoFacts.QualityAboveMax | go/types.go:158-160 | Quality 101 gives the single report "Parameter [quality] must be at most 100" |
| GoFacts.WidthAboveMax | go/types.go:158-160 | maxWidth 10001 gives the single report "Parameter [maxWidth] must be at most 10000" |
| GoFacts.TwoFailures | go/types.go:30-32 | The error text of two reports is the lead-in and the two texts joined by "; " |
| GoFacts.EmptyRequestError | go/types.go:136-139 | An empty request fails with image and then outputFormat reported missing, in one message |
| GoFacts.SoleWriter | go/types.go:74-96 | A field whose name no other field has is written exactly when it is not zero, with its %v text |
| GoFacts.ShapeQuery | go/types.go:74-96 | Fields named like the request's write each name exactly when its field is non-zero, with its %v text, and write no other key |
| GoFacts.RequestQuery | go/types.go:65-99 | ToQueryParams of a request writes exactly its non-zero fields under their json names, with their %v text |
| GoFacts.QualityNinety | go/types.go:95 | Quality 90 is sent as "90" |
| CrossClient.SameRuleTable | go/types.go:104-110 | The Go table declares the same five rules as the Java table |
| CrossClient.ZeroQualityDisagreement | go/types.go:141-143 | Quality 0 is reported below the minimum by the Java client but passes in Go |

## Left out

- The network, `HttpURLConnection` and the streams are not modelled. The reply is an input, and the request the client would send (verb, URL, headers, timeouts, body) is returned as data. Flushing and closing streams leave no trace.
- `UUID.randomUUID()` is a text parameter of the upload. The boundary built from it is modelled.
- `URLEncoder.encode` is an uninterpreted parameter. `JavaClient.QueryRoundTrip` only requires that it never outputs '&' or '='.
- `Double.parseDouble` is a parameter that returns NaN, an infinity, a finite real, or nothing (the NumberFormatException).
- IEEE rounding is not modelled.
- Parameter values that are `Double` or `Float` objects are not modelled. A map value is a String or an Integer/Long.
- A `null` value inside the parameter map, which makes `executeGet` throw in `toString()`, is not modelled.
- Rules.JavaBoundText: does not model how Java prints a Double bound of ten million or more (exponent form). All declared bounds are at most 10000.
- Rules.GoBoundText: does not model how `%v` prints a float64 bound of one million or more (exponent form). All declared bounds are at most 10000.
- GoTypes.NumValue: does not model float64 rounding of the int. Every comparison with a whole bound below 2^53 keeps its outcome.
- Go's reflect.Float64 case is not modelled. The record has no float field, so it never applies.
- Text.LowerAscii: the lower-casing in `getMimeType` is modelled on ASCII letters only. Java's locale-dependent Unicode case mapping is not modelled.
- Strings are sequences of Unicode scalar values, so unpaired UTF-16 surrogates and invalid UTF-8 cannot be expressed. A character beyond U+FFFF is counted as two UTF-16 chars by `String.length()` and written as two bytes by `writeBytes`, as in Java.
- GoTypes.Validate: takes a `Request` value. A nil receiver, for which the Go method panics, is not modelled. `ToQueryParams` does model the nil request.
- Struct-tag parsing (`Tag.Get("json")`) is not modelled. Tags are given as the declared strings.
- JavaClient.ExecuteWithFile: `streamFailure` stands for an exception raised before the body is written. Exceptions raised halfway through the copy or the closing lines are not modelled.
- JavaClient.ExecuteWithFile: `fieldName` is a string, so a null field name, which Java's concatenation writes into the part header as `name="null"`, is not modelled.
- go/client.go, `APIException` and `APIResponse` are not part of this model. The exceptions are a datatype holding message, status code and cause, and the response is its body text. That the constructor taking a message and a cause leaves the status code unset (`None`) is this model's assumption, since that constructor's source is not part of this model.
