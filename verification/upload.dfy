/**
  The upload rule: which file names are accepted as photos, and the name and
  reference a stored photo gets.
 */
module Upload {
  import opened Text
  import opened Clock

  /** `ALLOWED_EXTENSIONS`. */
  const Extensions: set<string> := {"png", "jpg", "jpeg", "webp"}

  /** `allowed_file(filename)`: the name has a dot, and the text after the
      last dot, lower-cased, is an allowed extension. */
  predicate AllowedFile(filename: string) {
    '.' in filename && Lower(AfterLast(filename, '.')) in Extensions
  }

  /** A dot at `i` followed by no other dot and by a text that lower-cases
      to an allowed extension. */
  predicate DotExtension(filename: string, i: int) {
    && 0 <= i < |filename| && filename[i] == '.'
    && '.' !in filename[i + 1..]
    && Lower(filename[i + 1..]) in Extensions
  }

  /** `allowed_file` holds exactly when some dot in the name is followed by no
      other dot and by a text that lower-cases to an allowed extension. */
  lemma AllowedFileIff(filename: string)
    ensures AllowedFile(filename) <==> exists i :: DotExtension(filename, i)
  {
    if AllowedFile(filename) {
      AllowedFileHasDot(filename);
    }
    if exists i :: DotExtension(filename, i) {
      var i :| DotExtension(filename, i);
      DotExtensionAllowed(filename, i);
    }
  }

  lemma AllowedFileHasDot(filename: string)
    requires AllowedFile(filename)
    ensures DotExtension(filename, |filename| - |AfterLast(filename, '.')| - 1)
  {
    var ext := AfterLast(filename, '.');
    assert |ext| < |filename| by {
      if |ext| == |filename| {
        assert false;
      }
    }
  }

  lemma DotExtensionAllowed(filename: string, i: int)
    requires DotExtension(filename, i)
    ensures AllowedFile(filename)
  {
    assert filename == filename[..i] + ['.'] + filename[i + 1..];
    AfterLastOfJoin(filename[..i], '.', filename[i + 1..]);
  }

  /** The name is judged by what follows its last dot alone. */
  lemma AllowedByLastExtension(stem: string, ext: string)
    requires '.' !in ext
    ensures AllowedFile(stem + ['.'] + ext) <==> Lower(ext) in Extensions
  {
    AfterLastOfJoin(stem, '.', ext);
    assert '.' in stem + ['.'] + ext by {
      assert (stem + ['.'] + ext)[|stem|] == '.';
    }
  }

  /** An upper-case extension is accepted: `photo.PNG`. */
  lemma UpperCaseExtensionAllowed()
    ensures AllowedFile("photo.PNG")
  {
    assert "photo.PNG" == "photo" + ['.'] + "PNG";
    AllowedByLastExtension("photo", "PNG");
    PngExtension();
  }

  lemma PngExtension()
    ensures Lower("PNG") in Extensions
  {
    assert Lower("PNG") == "png";
  }

  /** A name without a dot is refused, even one that spells an extension. */
  lemma NoDotRefused()
    ensures !AllowedFile("png")
  {
  }

  /** Only the last extension counts: `x.jpg.exe` is refused and `x.exe.jpg`
      accepted. */
  lemma LastExtensionCounts()
    ensures !AllowedFile("x.jpg.exe")
    ensures AllowedFile("x.exe.jpg")
  {
    ExeRefused();
    JpgAllowed("x.exe");
    assert "x.exe" + ".jpg" == "x.exe.jpg";
  }

  lemma ExeRefused()
    ensures !AllowedFile("x.jpg.exe")
  {
    assert "x.jpg.exe" == "x.jpg" + ['.'] + "exe";
    AllowedByLastExtension("x.jpg", "exe");
    assert Lower("exe") == "exe";
  }

  /** Any name ending in `.jpg` is accepted, whatever precedes it. */
  lemma JpgAllowed(stem: string)
    ensures AllowedFile(stem + ".jpg")
  {
    assert stem + ".jpg" == stem + ['.'] + "jpg";
    AllowedByLastExtension(stem, "jpg");
    assert Lower("jpg") == "jpg";
  }

  /** The name a photo is saved under: `utcnow().strftime('%Y%m%d%H%M%S_')`
      followed by `secure_filename(name)`. The sanitiser is a library
      function and is given as a parameter. */
  function StoredName(at: DateTime, secure: string -> string, name: string): string {
    UploadStamp(at) + secure(name)
  }

  /** `url_for('uploaded_file', filename=stored)`. */
  function Reference(stored: string): string {
    "/uploads/" + stored
  }

  /** The last path segment of an issued reference is the stored name, as
      long as the sanitiser leaves no slash in the name. */
  lemma ReferenceNamesStoredFile(at: DateTime, secure: string -> string, name: string)
    requires '/' !in secure(name)
    ensures AfterLast(Reference(StoredName(at, secure, name)), '/') == StoredName(at, secure, name)
  {
    var stored := StoredName(at, secure, name);
    assert '/' !in UploadStamp(at);
    assert '/' !in stored;
    assert Reference(stored) == "/uploads" + ['/'] + stored;
    AfterLastOfJoin("/uploads", '/', stored);
  }
}
