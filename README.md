# Meteosat SEVIRI level 1.5 HRIT decoding, modelled in Dafny

msevi_utils reads the level 1.5 image data of the SEVIRI radiometer on the
Meteosat Second Generation satellites, as disseminated in HRIT files (the
CGMS "xRIT" file format). One repeat cycle consists of a prologue file, an
epilogue file and, per channel, a number of image segment files. This
project models the decoding core of that library:

- the xRIT layer (`xrit.dfy`): the 16-byte primary header prefix, the header
  and data blocks of a file, the walk along the chain of header records to
  find one of a given type, and the decoding of the primary, image
  structure and image navigation records;
- the big-endian copy helpers (`endian.dfy`) and the unpacking of 10-bit
  samples into 16-bit counts (`unpack10.dfy`);
- the CCSDS day segmented (CDS) time conversions (`cds_time.dfy`);
- the SEVIRI-specific header records of an image segment: segment
  identification and line quality (`seviri_hrec.dfy`);
- image coverages (lines and columns counted from the south-east corner),
  their overlap test, the coverage of a segment and the mapping of a
  VIS/IR coverage onto the HRV grid (`coverage.dfy`);
- the level 1.5 image (`image.dfy`): allocation and the copy of an image
  segment's overlap into a larger image;
- reading a segment file and assembling an image from a list of segment
  files (`segment.dfy`);
- the record layout of the prologue and epilogue (`layout.dfy`) and the
  fields the library decodes from them (`prologue.dfy`, `epilogue.dfy`);
- the channel name tables of the four source files that carry one
  (`channels.dfy`) and the channel calibration lookups (`chaninf.dfy`);
- the grouping of the HRIT files of one slot into prologue, epilogue and
  per-channel segment lists (`flist.dfy`);
- the format-driven UTC time string parser (`timeparse.dfy`);
- the interpolation helpers: bracketing a value in an ascending table,
  minimum and maximum, and the corner indices of an n-dimensional cell
  (`mathutils.dfy`).

Files are modelled as byte sequences (`seq<byte>`); the functions that read a
field at an offset are paired with encoders that write it, and the
"placed" lemmas prove that reading a structure back from bytes where it was
written gives the structure. Operations that fill arrays or objects in place
(`memcpy_be*toh`, the 10-bit unpacker, `map_segment`, `get_chaninf`,
`char2tm`, `bracket`, `ndim_lin_interp_get_idx_wght`, `get_flist`) are
methods over arrays and classes, each proved against a function that
specifies it.

## Model

| member | source | states |
|---|---|---|
| Endian.BeValueOfBytes | memcpy_endian.h:9-13 | encoding a value in n big-endian bytes and reading it back gives the value |
| Endian.BytesOfBeValue | memcpy_endian.h:9-13 | reading n big-endian bytes and encoding the value again gives the same bytes |
| Endian.BeAtOfBytes | memcpy_endian.h:9-13 | a value written big-endian in the middle of any surrounding bytes reads back at that offset |
| Endian.BytesOfBeAt | memcpy_endian.h:9-13 | the value read at an offset re-encodes to exactly the bytes at that offset |
| Endian.Be16IsBeValue | memcpy_endian.h:9-13 | the two-byte shift-and-or of the 16-bit copy equals the big-endian value of the two bytes |
| Endian.Be32IsBeValue | memcpy_endian.h:28-32 | the four-byte shift-and-or of the 32-bit copy equals the big-endian value of the four bytes |
| Endian.Be64IsBeValue | memcpy_endian.h:47-51 | the eight-byte shift-and-or of the 64-bit copy equals the big-endian value of the eight bytes |
| Endian.BeValueAppend | memcpy_endian.h:9-13 | the big-endian value of a concatenation is the first part shifted by the second part's width plus the second part |
| Endian.CopyBigEndian | memcpy_endian.h:9-13 | element i of the destination is the big-endian value of the i-th w-byte group of the source; nothing outside the n destination elements changes |
| Endian.MemcpyBe16ToH | memcpy_endian.h:1-18 | each of the n 16-bit destination elements is 256 times the high byte plus the low byte of its source pair; the rest of the destination is unchanged |
| Endian.MemcpyBe32ToH | memcpy_endian.h:20-37 | each of the n 32-bit destination elements is the big-endian value of its four source bytes; the rest is unchanged |
| Endian.MemcpyBe64ToH | memcpy_endian.h:39-56 | each of the n 64-bit destination elements is the big-endian value of its eight source bytes; the rest is unchanged |
| Endian.PlainCopyReadsTheSame | memcpy_endian.h:14-16 | on a big-endian host the plain memcpy branch gives the same values as the byte-swapping loop |
| CdsTime.CRem | cds_time.c:18-19 | the remainder takes the sign of the dividend and completes the C division |
| CdsTime.UnixToCds | cds_time.c:16-22 | the result is a valid CDS time; for times from 1970 the milliseconds are the whole seconds of the day and the day count is the days since 1958 modulo 65536 |
| CdsTime.DayOffIs4383 | cds_time.c:7 | 1970-01-01 is day 4383 of the CDS epoch starting 1958-01-01 |
| CdsTime.UnixRoundTrip | cds_time.c:9-22 | Unix time to CDS and back is the identity for every time from 1970 whose day product fits a 32-bit int |
| CdsTime.CdsRoundTrip | cds_time.c:9-22 | CDS to Unix and back gives the CDS instant rounded half-up to a whole second |
| CdsTime.CdsToUnix | cds_time.c:9-14 | the Unix time is never negative; for a millisecond count below one day less 500, its whole days are the rebased uint16 day count and its seconds of day the milliseconds rounded half-up |
| CdsTime.CdsToUnixFitsInt | cds_time.c:9-14 | the 32-bit product days times 86400 is exact exactly when the rebased day is at most 24855 |
| CdsTime.EarlyDaysWrap | cds_time.c:9-14 | a CDS day before 1970 wraps through uint16 to a time more than 167 years after 1970 instead of a negative time |
| Coverages.ToInt32 | msevi_l15hrit.c:352-353 | a value is reinterpreted as a signed 32-bit int congruent to it modulo 2^32 |
| Coverages.Extent | msevi_l15hrit.c:352-353 | the number of lines or columns of a coverage is north minus south plus one whenever that fits a 32-bit int, also for an empty or reversed range |
| Coverages.Overlaps | msevi_l15hrit.c:330-339 | a true answer means the line ranges reach each other; a false one means one rectangle lies wholly south, north, east or west of the other |
| Coverages.OverlapsIffCommonCell | msevi_l15hrit.c:330-339 | two coverages overlap exactly when some line and column lies in both |
| Coverages.OverlapsSymmetricReflexive | msevi_l15hrit.c:330-339 | the overlap test is symmetric, every non-empty coverage overlaps itself, and an inverted (empty) line range is still reported as overlapping a coverage that straddles it |
| Coverages.Origin | msevi_l15hrit.c:312-322 | the first segment starts at line and column 5566 for HRV and 1856 for the other channels |
| Coverages.SegmentCoverage | msevi_l15hrit.c:312-322 | a segment's southern line and eastern column are the channel's origin minus the navigation offset, read as a signed 32-bit value, plus one (a negative offset puts a segment north of the origin), and away from uint32 wrap-around it spans exactly the image structure's lines and columns |
| Coverages.NorthernSegmentCoverage | msevi_l15hrit.c:312-322 | a VIS/IR line offset of -1392, stored as a uint32, puts a 464-line segment at lines 3249 to 3712 |
| Coverages.VisIrToHrv | msevi_l15_hrit2hdf.c:148-156 | the HRV coverage is a valid uint32 coverage named "hrv" whose southern line and eastern column are 3·x−3 and whose northern line and western column are 3·x−1 of the VIS/IR bounds, each reduced modulo 2^32 |
| Coverages.VisIrToHrvTriples | msevi_l15_hrit2hdf.c:148-156 | away from wrap-around the HRV coverage has three times the lines and columns, and the HRV cells 3L-3 to 3L-1 of every VIS/IR line and column L lie in it |
| Coverages.VisIrToHrvOnlyTriples | msevi_l15_hrit2hdf.c:148-156 | every HRV cell of the converted coverage falls in a VIS/IR cell of the original coverage |
| Xrit.ParsePrefix | src/cgms_xrit.c:33-35 | the file type is byte 3, the header length the big-endian 32-bit value at byte 4 and the data length the big-endian 64-bit value at byte 8 |
| Xrit.OpenAsWritten | src/cgms_xrit.c:18-46 | as written, every file opens (there is no failure result), and a file of at least 16 bytes opens to the prefix parsed from its first 16 bytes |
| Xrit.OpenAsWrittenDependsOnJunk | src/cgms_xrit.c:30-35 | for a file shorter than 16 bytes the header length comes from whatever the stack buffer held |
| Xrit.Open | src/cgms_xrit.c:18-46 | a file opens exactly when it holds the 16-byte prefix, and then its type is byte 3, its header length the big-endian value of bytes 4-7 and its data length that of bytes 8-15 |
| Xrit.OpenAgreesWithAsWritten | src/cgms_xrit.c:18-46 | on every file that holds the prefix the corrected open agrees with the code as written |
| Xrit.ReadHeader | src/cgms_xrit.c:71-88 | the header is read exactly when its length is positive and within the file, and it is then the file's first header-length bytes |
| Xrit.DataBytesIsCeiling | src/cgms_xrit.c:102-103 | the data length in bits is rounded up to whole bytes |
| Xrit.ReadData | src/cgms_xrit.c:97-115 | the data block is read exactly when it is non-empty and lies within the file after the header, and it is then the rounded-up number of bytes that follow the header |
| Xrit.ScanFoundHasType | src/cgms_xrit.c:133-141 | a record the scan finds lies in the header at or after the start and has the requested type |
| Xrit.ScanFoundWalk | src/cgms_xrit.c:133-141 | a found record ends a walk along the record lengths on which no earlier record has the requested type |
| Xrit.WalkScanFound | src/cgms_xrit.c:133-141 | conversely, the first record of the requested type on such a walk is the one the scan finds |
| Xrit.ScanNotFoundWalk | src/cgms_xrit.c:133-141 | when the scan finds nothing, the walk it made holds no record of the requested type |
| Xrit.FindHrec | src/cgms_xrit.c:126-142 | the loop returns the offset the scan specification finds, or none when it finds nothing; a returned record lies in the header and has the requested type |
| Xrit.DecodeHrec | src/cgms_xrit.c:154-203 | only primary, image structure and image navigation records decode; the result keeps the record type and its big-endian length |
| Xrit.EncodeHrec | src/cgms_xrit.c:154-203 | an encoded record has the size the decoder consumes for its type |
| Xrit.DecodeEncode | src/cgms_xrit.c:154-203 | decoding an encoded record gives the record back |
| Xrit.DecodeEncodePrimary | src/cgms_xrit.c:164-174 | a primary record reads back its file type, 32-bit header length and 64-bit data length |
| Xrit.DecodeEncodeStructure | src/cgms_xrit.c:175-186 | an image structure record reads back bits per pixel, columns, lines and compression flag |
| Xrit.DecodeEncodeNavigation | src/cgms_xrit.c:187-199 | an image navigation record reads back the projection name and the four scaling factors and offsets |
| Xrit.EncodeDecode | src/cgms_xrit.c:154-203 | a decodable record re-encodes to exactly the bytes the decoder read |
| Xrit.EncodeDecodePrimary | src/cgms_xrit.c:164-174 | a primary record re-encodes to its first 16 bytes |
| Xrit.EncodeDecodeStructure | src/cgms_xrit.c:175-186 | an image structure record re-encodes to its first 9 bytes |
| Xrit.EncodeDecodeNavigation | src/cgms_xrit.c:187-199 | an image navigation record re-encodes to its first 51 bytes |
| Xrit.PrimaryRepeatsPrefix | src/cgms_xrit.c:164-174 | the primary record at the start of a file carries the same type and lengths the open parses from the prefix |
| SeviriHrec.LineCount | msevi_l15hrit.c:421 | the number of line entries is the largest count whose entries fit after the 3-byte record head |
| SeviriHrec.DecodeSeviriHrec | msevi_l15hrit.c:385-437 | only segment identification and line quality records decode; the result keeps the type and big-endian length |
| SeviriHrec.SatIdIsHighByte | msevi_l15hrit.c:402 | the spacecraft id is the high byte of the big-endian 16-bit field at byte 3 |
| SeviriHrec.DecodeIgnoresByte4 | msevi_l15hrit.c:402 | byte 4 of an identification record does not affect the decoded record |
| SeviriHrec.DecodeLineSideInfo | msevi_l15hrit.c:424-432 | the loop fills a fresh array with exactly the line entries the specification decodes |
| SeviriHrec.DecodeEncode | msevi_l15hrit.c:385-437 | decoding an encoded SEVIRI record gives it back |
| SeviriHrec.DecodeEncodeIdentification | msevi_l15hrit.c:394-410 | an identification record reads back spacecraft, channel, segment numbers, planned start and end and compression |
| SeviriHrec.DecodeEncodeLineQuality | msevi_l15hrit.c:411-434 | a line quality record reads back every line entry in order |
| SeviriHrec.EncodeDecodeIdentification | msevi_l15hrit.c:394-410 | an identification record re-encodes to its first 13 bytes with the ignored byte 4 cleared |
| SeviriHrec.EncodedLineAt | msevi_l15hrit.c:424-432 | line entry i is read back from offset 3 plus i times the entry size |
| Unpack10.SrcOff | memutils.c:178-179 | the source word of sample k starts at the byte holding bit 10k, with the sample's first bit among the first seven bits of that byte |
| Unpack10.SrcOffMonotone | memutils.c:178-179 | later samples never start in an earlier byte |
| Unpack10.WindowField | memutils.c:175-183 | a field of the 16-bit big-endian window at a byte is the same bits as the field of the packed bit stream |
| Unpack10.MaskShiftIsElement | memutils.c:170-182 | masking and shifting the window with the tables for k mod 4 gives the k-th 10-bit sample of the bit stream, below 1024 |
| Unpack10.ElementsBounded | memutils.c:167-185 | every unpacked sample is below 1024 |
| Unpack10.ElementsSplit | memutils.c:167-185 | unpacking a run equals unpacking its first part followed by the rest |
| Unpack10.ElementsReadOnlyPrefix | memutils.c:167-185 | unpacking reads no byte past the second byte of the last sample's window |
| Unpack10.UnpackOne | memutils.c:180-182 | one step stores sample k of the bit stream at its index and changes nothing else |
| Unpack10.Unpack10To16 | memutils.c:167-185 | the first cnt destination elements are the cnt consecutive 10-bit samples starting at sample off; the rest is unchanged |
| Mosaic.Image.Alloc | msevi_l15.c:43-57 | a new image has the requested size, a zero header, zero counts and zero line side information; src/msevi_l15data.c holds an identical copy |
| Mosaic.GridSizeIsProduct | msevi_l15.c:43-57 | the count array of an image holds lines times columns elements |
| Mosaic.MappedCountsAt | msevi_l15hrit.c:261-280 | a destination cell inside both coverages takes the source count at the same line and column; every other cell keeps its value |
| Mosaic.PositionOfCell | msevi_l15hrit.c:261-280 | every index of the count array is the cell of exactly one line and column of the destination coverage |
| Mosaic.MappedLinesAt | msevi_l15hrit.c:261-280 | a destination line inside the source's lines takes the source's line side information when the column overlap nc is at least 0 (touching columns included); other lines are unchanged |
| Mosaic.MappedCountsIdempotent | msevi_l15hrit.c:246-286 | mapping the same segment twice gives the same counts as mapping it once |
| Mosaic.MappedCountsCommute | msevi_l15hrit.c:246-286 | mapping two segments whose coverages do not overlap gives the same counts in either order |
| Mosaic.CopyLineCounts | msevi_l15hrit.c:264-279 | the inner loop copies the overlap columns of one line and leaves the rest of the destination as the specification says |
| Mosaic.CopyOverlap | msevi_l15hrit.c:252-280 | the loops leave the destination counts and line side information equal to the mapped specification |
| Mosaic.MapSegment | msevi_l15hrit.c:246-286 | the destination's counts and lines are the source mapped onto the destination coverage, the coverage and segment id are unchanged, the result is the line overlap nl when both the line overlap nl and the column overlap nc are at least 0, and 0 otherwise (so rectangles that only touch give 0); the source's spacecraft and channel are adopted under that same condition when the destination has no spacecraft yet |
| Segments.Opened | msevi_l15hrit.c:166-244 | a segment file is readable exactly when it opens and is an image file; its header is the file's first header-length bytes |
| Segments.GetSegmentCoverage | msevi_l15hrit.c:289-328 | the coverage of a segment file is found exactly when the file opens as an image file and its header can be read, and it is then a valid coverage |
| Segments.LeWords | msevi_l15hrit.c:228 | each 16-bit count of an uncompressed segment is its low byte first |
| Segments.SegmentOf | msevi_l15hrit.c:166-244 | a segment is read exactly when the file opens as an image file |
| Segments.ReadAndCoverageAgree | msevi_l15hrit.c:166-328 | reading a segment and asking for its coverage succeed on the same files and give the same coverage |
| Segments.DecodeRecords | msevi_l15hrit.c:184-193 | the four header records a segment needs are the decoded records the scan specification finds |
| Segments.ReadSegment | msevi_l15hrit.c:166-244 | the image is null exactly when the specification reads nothing; otherwise it is fresh and holds the segment the specification reads: sizes, spacecraft, channel, coverage, counts and line side information |
| Segments.TestedCoverage | msevi_l15hrit.c:364-366 | the coverage tested for a file is the one the coverage lookup reports, or whatever seg_cov held when the lookup fails |
| Segments.ViewOf | msevi_l15hrit.c:364-369 | a file is read exactly when the coverage tested for it overlaps the request (a stale one when its coverage lookup fails), and reading it fails exactly when it cannot be opened as an image file |
| Segments.NoneFailAll | msevi_l15hrit.c:363-376 | no file fails up to n exactly when each of the first n files does not fail |
| Segments.MapDecoded | msevi_l15hrit.c:371 | mapping a decoded segment changes the image's grid exactly as the mapping specification says and keeps its coverage |
| Segments.ReadFile | msevi_l15hrit.c:364-375 | one file read succeeds exactly when its view does not fail; on success the grid takes one step of the assembly specification, otherwise it is unchanged |
| Segments.NewImage | msevi_l15hrit.c:351-360 | a new image for a request has the request's coverage and a zero grid |
| Segments.ReadFiles | msevi_l15hrit.c:363-376 | the loop succeeds exactly when no file fails, and then the grid holds every file mapped in turn |
| Segments.ReadImage | msevi_l15hrit.c:342-382 | the image is null exactly when some overlapping file cannot be read; otherwise its grid is the zero image with every overlapping segment mapped onto it in file order |
| L15Layout.HeaderOffsetsAreSums | msevi_l15hrit.c:26-50 | each prologue record offset is the sum of the lengths of the records before it |
| L15Layout.TrailerEndAsWrittenIsNotTheSum | msevi_l15hrit.c:64-72 | the end entry of the epilogue offset table is 10000 more than the sum of the record lengths |
| L15Layout.TrailerOffsetsAreSums | msevi_l15hrit.c:53-72 | with the end entry corrected, each epilogue record offset is the sum of the lengths before it |
| L15Layout.ConcatPlaced | msevi_l15hrit.c:480-495 | the i-th of a run of equal-sized encoded parts lies at the run start plus i times the part size |
| L15Layout.FieldsPlaced | msevi_l15hrit.c:480-495 | reading n big-endian fields where they were encoded gives the values back |
| L15Layout.CdsPlaced | msevi_l15hrit.c:500-511 | a CDS time encoded as a 16-bit day and 32-bit milliseconds reads back at its offset |
| L15Layout.CoveragePlaced | msevi_l15hrit.c:565-581 | a coverage encoded as four 32-bit fields reads back at its offset |
| Prologue.SatelliteDefinitionPlaced | msevi_l15hrit.c:463-471 | the satellite id and nominal longitude read back where they were written |
| Prologue.OrbitCoefPlaced | msevi_l15hrit.c:482-494 | one orbit polynomial (start and end time, eight coefficients each for x, y and z) reads back where it was written |
| Prologue.ReadOrbitCoefs | msevi_l15hrit.c:480-495 | the loop reads the orbit polynomials the specification reads, at a stride of 396 bytes |
| Prologue.OrbitCoefsPlaced | msevi_l15hrit.c:480-495 | all orbit polynomials read back in order |
| Prologue.OrbitPlaced | msevi_l15hrit.c:472-496 | the orbit period and its polynomials read back where they were written |
| Prologue.PlannedAcquisitionTimePlaced | msevi_l15hrit.c:500-511 | the planned scan start and end and the planned repeat cycle end read back |
| Prologue.ReferenceGridPlaced | msevi_l15hrit.c:522-549 | a reference grid (lines, columns, grid spacing) reads back |
| Prologue.ImageDescriptionPlaced | msevi_l15hrit.c:514-583 | the projection, reference grids, planned coverages and production flags read back |
| Prologue.CalibrationsPlaced | msevi_l15hrit.c:585-596 | the calibration slope and offset of every channel read back in channel order |
| Prologue.GeometricProcessingPlaced | msevi_l15hrit.c:598-614 | the geometric processing parameters read back |
| Prologue.PartsInsideRecords | msevi_l15hrit.c:439-621 | every decoded part lies inside the prologue record it belongs to |
| Prologue.HeaderOfLaidOut | msevi_l15hrit.c:439-621 | a header laid out at the prologue offsets reads back whole |
| Prologue.ReadPrologue | msevi_l15hrit.c:439-621 | a prologue is read exactly when the file is a prologue file and its data block can be read, and the result is then the valid header decoded at the fixed prologue offsets of that data block |
| Prologue.ReadPrologueOfLaidOut | msevi_l15hrit.c:439-621 | reading a prologue file whose data block lays out a header returns exactly that header |
| Epilogue.ScanningSummaryPlaced | msevi_l15hrit.c:654-666 | the scanning summary reads back where it was written |
| Epilogue.ReceptionStatsPlaced | msevi_l15hrit.c:667-677 | the reception summary statistics read back |
| Epilogue.ReadImageValidities | msevi_l15hrit.c:678-689 | the loop reads the per-channel image validity the specification reads |
| Epilogue.ImageValiditiesPlaced | msevi_l15hrit.c:678-689 | the validity of every channel reads back in channel order |
| Epilogue.ProductionStatsPlaced | msevi_l15hrit.c:648-716 | the image production statistics read back |
| Epilogue.HeadPlaced | msevi_l15hrit.c:650-666 | the spacecraft id and the scanning summary at the start of the statistics read back |
| L15Layout.CoveragesPlaced | msevi_l15hrit.c:690-714 | three coverages stored one after the other (VIS/IR, lower HRV, upper HRV) read back in order, as the epilogue's actual coverages and the prologue's planned coverages are stored |
| Epilogue.TrailerRoundTrip | msevi_l15hrit.c:623-726 | a trailer encoded at the epilogue offsets reads back whole, whatever follows it |
| Epilogue.ReadEpilogue | msevi_l15hrit.c:623-726 | an epilogue is read exactly when the file opens as an epilogue file and its data block can be read, and the result is then the trailer decoded at the fixed epilogue offsets of that data block, with valid statistics |
| Epilogue.ReadEpilogueOfEncoded | msevi_l15hrit.c:623-726 | reading an epilogue file whose data block starts with an encoded trailer returns exactly that trailer |
| Channels.ChanToId | msevi.c:9-18 | the id is the 1-based position of a table name the given string begins with, letters compared without regard to case, or -1 exactly when it begins with none; mseviri.c, msevi_l15.c and src/msevi_l15data.c repeat the same search over the lower-case table |
| Channels.FirstMatch | msevi.c:12-15 | the search returns the first table entry the string begins with |
| Channels.IdToChan | msevi.c:20-26 | a name is returned exactly for ids 1 to 12, and it is the table entry of that id; the other three files repeat this lookup |
| Channels.TablesSameUpToCase | mseviri.c:7-10 | the upper-case and lower-case name tables hold the same names up to case |
| Channels.FindChannel | msevi.c:9-18 | the search from position i returns the 1-based position of a matching name after i, or -1 exactly when no later name matches |
| Channels.LowerNamesDiffer | msevi_l15.c:12-15 | no channel name is a prefix of another, so every name selects one channel |
| Channels.TablesAgree | msevi.c:9-18 | both tables give every channel name the same id |
| Channels.LowerIdRoundTrip | msevi_l15.c:12-34 | looking up the name of an id in the lower-case table gives the id back |
| Channels.UpperIdRoundTrip | msevi.c:4-26 | looking up the name of an id in the upper-case table gives the id back |
| Channels.PaddedNameFound | msevi_l15hrit.c:129 | a file name's padded channel field "HRV___" maps to the HRV id 12 |
| Channels.ShortNameNotFound | mseviri.c:16 | a name shorter than the table entries matches none of them |
| ChanInf.TablesOf | msevi_l15.c:87-103 | calibration tables exist exactly for the Meteosat-8 and Meteosat-9 satellite ids |
| ChanInf.TablesSplitSolarThermal | msevi_l15.c:87-103 | the solar irradiance is set exactly for the solar channels and the thermal coefficients exactly for the thermal channels |
| ChanInf.GetChanInf | msevi_l15.c:84-134 | the lookup succeeds exactly for a known satellite and a channel id from 1 to 12, then fills the channel's name and coefficients from the tables; on failure nothing changes |
| ChanInf.FindChanInf | src/msevi_l15data.c:84-92 | the index returned is an entry with the requested channel id, or none exactly when no entry has it |
| ChanInf.FindInChannelOrder | src/msevi_l15data.c:84-92 | in a table listed in channel order channel id k is found at index k-1 |
| FileLists.FileList.Empty | msevi_l15hrit.c:93 | a new list has no prologue, no epilogue and no segment for any channel |
| FileLists.Field | msevi_l15hrit.c:118-121 | a name field is the at most six characters at its offset in the base name |
| FileLists.LastOf | msevi_l15hrit.c:124-127 | the prologue or epilogue slot holds a listed file of that kind, or nothing exactly when there is none |
| FileLists.LastOfSnoc | msevi_l15hrit.c:124-127 | a file added to the list replaces the slot exactly when it is of that kind |
| FileLists.ChannelFilesSnoc | msevi_l15hrit.c:128-132 | a file added to the list extends exactly its own channel's segment list, at the end |
| FileLists.FileList.Add | msevi_l15hrit.c:124-132 | adding a file keeps the list equal to the classification of all files so far, a segment going at the end of its channel's list |
| FileLists.GetFileList | msevi_l15hrit.c:110-134 | the list built by the loop holds exactly the classification of the matched files |
| FileLists.ChannelFilesAreTheSegments | msevi_l15hrit.c:128-132 | a path is in a channel's list exactly when it was classified as a segment of that channel |
| FileLists.ChannelFilesAppend | msevi_l15hrit.c:128-132 | classifying more files appends to each channel's list in file order |
| FileLists.LastOfAppend | msevi_l15hrit.c:124-127 | a later prologue or epilogue replaces an earlier one |
| FileLists.EveryFileListedOnce | msevi_l15hrit.c:110-134 | prologue and epilogue files plus the segment files of all twelve channels account for every matched file |
| FileLists.HrvSegmentName | msevi_l15hrit.c:118-132 | a name with the channel field "HRV___" and a numeric segment field is an HRV segment |
| FileLists.PrologueName | msevi_l15hrit.c:124-125 | a name whose segment field begins with "PRO" is a prologue |
| TimeParse.SkipSpace | src/timeutils.c:36-100 | the scan skips exactly the leading white space |
| TimeParse.DigitsEnd | src/timeutils.c:36-100 | the scan stops at the first non-digit |
| TimeParse.ScanDigits | src/timeutils.c:36-100 | a string of digits scans to its decimal value |
| TimeParse.ScanFails | src/timeutils.c:36-100 | a string that does not start with a number scans to nothing |
| TimeParse.Store | src/timeutils.c:36-100 | storing a value sets exactly the named field of the broken-down time |
| TimeParse.Conversion | src/timeutils.c:21-102 | a conversion is known exactly for the specifiers the switch handles, and it consumes the specifier's field width |
| TimeParse.Char2Tm | src/timeutils.c:21-102 | an unknown specifier or unreadable field returns -1 and leaves the time alone; otherwise the field the specification names is set and the rest is unchanged |
| TimeParse.ParseFrom | src/timeutils.c:111-139 | the parse returns 0 or -1 and only moves forward; success means the format or the string ran out |
| TimeParse.UtcTimeStrToTm | src/timeutils.c:111-139 | the loop returns the result and leaves the broken-down time the specification of the walk gives |
| TimeParse.LiteralFormat | src/timeutils.c:128-134 | a format without conversions succeeds exactly when the string matches it as far as both go, and sets no field |
| TimeParse.ConversionAdvancesByWidth | src/timeutils.c:117-127 | a conversion advances the string by its field width and the format by two |
| TimeParse.TrailingPercentIsLiteral | src/timeutils.c:117-134 | a lone '%' at the end of the format matches a literal '%' |
| TimeParse.UnknownSpecifierFails | src/timeutils.c:117-127 | an unknown specifier fails at once without changing the time |
| TimeParse.TwoDigitYearWindow | src/timeutils.c:36-46 | a two-digit year up to 68 means 20xx and 69 or more means 19xx, stored as years since 1900 |
| TimeParse.MonthIsZeroBased | src/timeutils.c:57-65 | a month is stored counted from zero |
| TimeParse.FourDigitYear | src/timeutils.c:27-35 | four digits under %Y store the year less 1900 in the year field and advance four characters |
| TimeParse.TwoDigitFieldsStoredAsIs | src/timeutils.c:66-93 | two digits under %d, %H, %M or %S store their value unchanged in the day of month, hour, minute or second and advance two characters |
| TimeParse.DayOfYearReadsPastItsField | src/timeutils.c:47-56 | the day of year is scanned from the whole rest of the string, not from its three-character field |
| TimeParse.ShortStringAccepted | src/timeutils.c:137 | as written, "2006" parses against "%Y%m" with success although the month was never read |
| TimeParse.ParseChecked | src/timeutils.c:137 | with the intended check, success means no conversion is left in the unread format |
| TimeParse.ShortStringRejected | src/timeutils.c:137 | with the intended check, "2006" against "%Y%m" is rejected |
| MathUtils.Bracket | src/mathutils.c:29-50 | for a table of at least two ascending values the index is the unique bracketing interval, clamped to the first and last intervals |
| MathUtils.BracketUnique | src/mathutils.c:29-50 | the bracketing index is unique |
| MathUtils.BracketEncloses | src/mathutils.c:29-50 | inside the table range the value lies between the two bracketing entries |
| MathUtils.BracketClamps | src/mathutils.c:29-50 | values below the second entry give index 0 and values from the last but one entry give the last interval |
| MathUtils.BracketMonotone | src/mathutils.c:29-50 | a larger value never gets a smaller index |
| MathUtils.EnclosingIndices | src/mathutils.c:173-180 | the two indices bracket the lower and the upper bound |
| MathUtils.EnclosingSpan | src/mathutils.c:173-180 | the lower index lies before the upper one, and within the table the span encloses both bounds |
| MathUtils.GetMinMax | src/mathutils.c:63-72 | the results bound every element and are elements themselves |
| MathUtils.CornerStep | src/mathutils.c:102-108 | corner j of the next dimension is corner j of this one, and corner j plus 2^i adds the dimension's stride |
| MathUtils.ExpandDimension | src/mathutils.c:102-108 | one pass doubles the filled corners, each equal to its bit-selected sum of strides |
| MathUtils.NdimIndices | src/mathutils.c:87-109 | the first 2^ndim entries are the linear indices of the corners of the cell, corner j taking the upper index in dimension i exactly when bit i of j is set |

## Left out

- File I/O (`fopen`, `fread`, `fseek`, `glob`, `basename`) is replaced by byte sequences and lists of names given as parameters; the decoded file name's directory is not inspected.
- The wavelet decompressor called for compressed segments is not part of this model: its output is a parameter of `Segments.SegmentOf`.
- `Segments.ReadImage`: the source dereferences a null coverage and missing header records; the model requires a valid request and well-formed segment records instead of modelling a crash.
- CdsTime.CdsToUnix: the product days·86400 is exact in the model; the C code forms it in a 32-bit `int`, which overflows (undefined behaviour) past rebased day 24855, in January 2038. `CdsTime.CdsToUnixFitsInt` pins that limit.
- Segments.SegmentOf and Segments.ReadSegment: both require that the data block can be read (`SegmentDefined`). The C code does not check this: for an uncompressed file that does not hold its data, the count buffer stays null and is dereferenced later. The model excludes that input rather than modelling the crash.
- Segments.ReadImage: `AllUsable` requires every file in the list to be usable, including files after the first one that fails. The C code returns at that first failure and never inspects the later files. The contract is therefore stronger in its precondition than the source needs.
- Prologue.ReadPrologue and Epilogue.ReadEpilogue: both require a data block at least as long as the fields they decode (`DataLongEnough`: `PrologueReadSize` bytes for the prologue, `TrailerRecOff[2]` bytes for the epilogue). The C code decodes at fixed offsets with no length check, so a shorter data block makes it read past its buffer. The model excludes that input rather than modelling the overread.
- Segments.Opened, Prologue.ReadPrologue and Epilogue.ReadEpilogue open files with the corrected `Xrit.Open`, which rejects a file shorter than the 16-byte prefix. On such a file the code as written parses an uninitialised buffer (see Findings); the readers model the corrected behaviour.
- Allocation failure of `calloc`/`malloc` is not modelled; every allocation succeeds.
- `Endian.MemcpyBe16ToH`: the host is taken as little-endian, so the byte-swapping branch is the one modelled; `Endian.PlainCopyReadsTheSame` covers the other branch.
- Prologue and epilogue fields the library skips, and the printing functions `msevi_l15_fprintf_header` and `msevi_l15_fprintf_trailer`, are not modelled.
- Floating-point fields are kept as their raw big-endian bits or as `real` constants; no floating-point arithmetic is modelled.
- MathUtils.Bracket: the interpolation weight it also returns is not modelled, because it is floating-point arithmetic.
- MathUtils.NdimIndices: the interpolation weights are not modelled, because they are floating-point arithmetic; `1 << i` is modelled as 2^i without overflow.
- Index arithmetic in C `int` is modelled on unbounded integers wherever the sizes of SEVIRI images keep it in range.
- TimeParse.Char2Tm: the C function returns a `char`; the model returns an `int` with the same two values.
- TimeParse.ParseFrom: a string position past the end of the string is taken as the end of the string; `sscanf` overflow of very long digit runs is not modelled.
- FileLists.GetFileList: a segment file whose channel field names no channel makes the source write out of bounds; the model requires every classified segment to name a channel and to fit the 26 slots per channel.
- The service pattern selection (`pzs`, `rss`), `printf` and `exit` in `msevi_l15hrit_get_flist`, and `msevi_l15hrit_free_flist` are not modelled.
- `msevi_l15_cnt2bt`, the JSON readers of `src/msevi_l15data.c`, HDF5 output, `msevi_l15hrit_annotate_image`, the geostationary projection, the sun position and the `timegm`-based conversions of `src/timeutils.c` are outside this model.
- `xrit_fclose` and `msevi_l15_image_free` only release memory and are not modelled.

## Findings

| source | as written | input that shows it | evidently intended | confidence | as-written member | corrected member |
|---|---|---|---|---|---|---|
| msevi_l15hrit.c:71 | the end entry of the epilogue offset table is 390325 | the record lengths sum to 380325 | the end offset is the sum of the record lengths, 380325 | not executed | L15Layout.TrailerEndAsWrittenIsNotTheSum | L15Layout.TrailerOffsetsAreSums |
| src/cgms_xrit.c:31 | `fread` returns an item count, so `r<0` never fails and a short file is parsed from an uninitialised buffer | a file of 0 bytes | a file without the 16-byte prefix is rejected (`r != 1`) | not executed | Xrit.OpenAsWrittenDependsOnJunk | Xrit.Open |
| src/timeutils.c:137 | `!sptr` tests the pointer, which is never null, so a string that ends early is accepted | "2006" parsed with "%Y%m" | `!*sptr`: a string that ends while a conversion remains is rejected | not executed | TimeParse.ShortStringAccepted | TimeParse.ParseChecked |
