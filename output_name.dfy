/**
 * The output file name `main` passes on: the extension of the chosen format
 * is appended when the name lacks it.
 */
module OutputName {
  import opened Strings

  datatype Format = Tar | Zip

  /**
   * The suffix logic as written.  With compression, a name that already ends
   * in `.tar.gz` or `.tgz` fails the first test and falls to the `elif`,
   * which appends `.tar` because such a name does not end in `.tar`.
   */
  function WithExtension(output: string, format: Format, compress: bool): string
  {
    match format
    case Tar =>
      if compress && !(EndsWith(output, ".tar.gz") || EndsWith(output, ".tgz")) then output + ".tar.gz"
      else if !EndsWith(output, ".tar") then output + ".tar"
      else output
    case Zip =>
      if !EndsWith(output, ".zip") then output + ".zip" else output
  }

  /** The evident intent of the compressed branch: a name already ending in `.tar.gz` or `.tgz` is kept. */
  function WithExtensionIntended(output: string, format: Format, compress: bool): string
  {
    match format
    case Tar =>
      if compress then
        if EndsWith(output, ".tar.gz") || EndsWith(output, ".tgz") then output else output + ".tar.gz"
      else if !EndsWith(output, ".tar") then output + ".tar"
      else output
    case Zip =>
      if !EndsWith(output, ".zip") then output + ".zip" else output
  }

  lemma EndsWithAppended(s: string, suffix: string)
    ensures EndsWith(s + suffix, suffix)
  {
    assert (s + suffix)[|s|..] == suffix;
  }

  /** A suffix ending in `z` or `.tgz` rules out the suffix `.tar`. */
  lemma CompressedNameIsNotTar(output: string)
    requires EndsWith(output, ".tar.gz") || EndsWith(output, ".tgz")
    ensures !EndsWith(output, ".tar")
  {
    var last := output[|output| - 1];
    if EndsWith(output, ".tar.gz") {
      assert output[|output| - 7..][6] == last;
    } else {
      assert output[|output| - 4..][3] == last;
    }
    assert |output| >= 4 ==> output[|output| - 4..][3] == last != 'r';
  }

  /** Zip: `.zip` is appended exactly when missing, and the result always ends in `.zip`. */
  lemma ZipExtension(output: string, compress: bool)
    ensures WithExtension(output, Zip, compress) == (if EndsWith(output, ".zip") then output else output + ".zip")
    ensures EndsWith(WithExtension(output, Zip, compress), ".zip")
  {
    EndsWithAppended(output, ".zip");
  }

  /** Uncompressed tar: `.tar` is appended exactly when missing, and the result always ends in `.tar`. */
  lemma TarExtension(output: string)
    ensures WithExtension(output, Tar, false) == (if EndsWith(output, ".tar") then output else output + ".tar")
    ensures EndsWith(WithExtension(output, Tar, false), ".tar")
  {
    EndsWithAppended(output, ".tar");
  }

  /** Compressed tar as written: `.tar.gz` is added to other names, and `.tar` to names already ending in `.tar.gz` or `.tgz`. */
  lemma CompressedTarExtension(output: string)
    ensures WithExtension(output, Tar, true) ==
      if EndsWith(output, ".tar.gz") || EndsWith(output, ".tgz") then output + ".tar" else output + ".tar.gz"
  {
    if EndsWith(output, ".tar.gz") || EndsWith(output, ".tgz") {
      CompressedNameIsNotTar(output);
    }
  }

  /**
   * The discrepancy: with compression, `backup.tar.gz` becomes
   * `backup.tar.gz.tar` and `backup.tgz` becomes `backup.tgz.tar`, whatever
   * stands for `backup`; so applying the rule to its own result always
   * changes the name again.
   */
  lemma CompressedTarAppendsTar(base: string)
    ensures WithExtension(base + ".tar.gz", Tar, true) == base + ".tar.gz" + ".tar"
    ensures WithExtension(base + ".tgz", Tar, true) == base + ".tgz" + ".tar"
    ensures WithExtension(WithExtension(base, Tar, true), Tar, true) != WithExtension(base, Tar, true)
  {
    EndsWithAppended(base, ".tar.gz");
    CompressedTarExtension(base + ".tar.gz");
    EndsWithAppended(base, ".tgz");
    CompressedTarExtension(base + ".tgz");
    var once := WithExtension(base, Tar, true);
    CompressedTarExtension(base);
    CompressedTarExtension(once);
    assert |WithExtension(once, Tar, true)| > |once|;
  }

  /**
   * The intended rule keeps a compressed name already ending in `.tar.gz` or
   * `.tgz`, always yields a name with a suffix of its format, and applying it
   * again changes nothing.
   */
  lemma IntendedExtension(output: string, format: Format, compress: bool)
    ensures var r := WithExtensionIntended(output, format, compress);
      && (format == Zip ==> EndsWith(r, ".zip"))
      && (format == Tar && !compress ==> EndsWith(r, ".tar"))
      && (format == Tar && compress ==> EndsWith(r, ".tar.gz") || EndsWith(r, ".tgz"))
      && WithExtensionIntended(r, format, compress) == r
      && (r == output || r == output + ".zip" || r == output + ".tar" || r == output + ".tar.gz")
    ensures format == Tar && compress && (EndsWith(output, ".tar.gz") || EndsWith(output, ".tgz")) ==>
      WithExtensionIntended(output, format, compress) == output
  {
    EndsWithAppended(output, ".zip");
    EndsWithAppended(output, ".tar");
    EndsWithAppended(output, ".tar.gz");
  }

  /** The written rule and the intended one differ only on compressed names already ending in `.tar.gz` or `.tgz`. */
  lemma WrittenAgreesElsewhere(output: string, format: Format, compress: bool)
    requires !(format == Tar && compress && (EndsWith(output, ".tar.gz") || EndsWith(output, ".tgz")))
    ensures WithExtension(output, format, compress) == WithExtensionIntended(output, format, compress)
  {
  }
}
