// Small vocabulary shared by every component of the model.
module Prelude {

  datatype Option<+T> = None | Some(value: T)

  /** SHA-256 is modelled as a constructor: two digests are equal exactly when the
      digested documents are.  This is the injectivity every component relies on. */
  datatype Sha256<+T> = Sha256(payload: T)

  predicate IsHex(c: char) {
    '0' <= c <= '9' || 'a' <= c <= 'f'
  }

  predicate AllHex(s: string) {
    forall i | 0 <= i < |s| :: IsHex(s[i])
  }

  /** A complete commit SHA: forty lower-case hexadecimal digits. */
  predicate IsCommit(s: string) {
    |s| == 40 && AllHex(s)
  }

  /** A SHA-256 in lower-case hexadecimal. */
  predicate IsSha256Hex(s: string) {
    |s| == 64 && AllHex(s)
  }

  predicate IsRepositoryChar(c: char) {
    'a' <= c <= 'z' || '0' <= c <= '9' || c in {'.', '/', ':', '_', '-'}
  }

  predicate IsRepositoryStart(c: char) {
    'a' <= c <= 'z' || '0' <= c <= '9'
  }

  /** An immutable image reference, `repository@sha256:<64 hex digits>`. */
  predicate IsImageDigest(s: string) {
    |s| >= 73 &&
    IsSha256Hex(s[|s| - 64..]) &&
    s[|s| - 72..|s| - 64] == "@sha256:" &&
    IsRepositoryStart(s[0]) &&
    forall i | 0 <= i < |s| - 72 :: IsRepositoryChar(s[i])
  }

  /** The lower-case hexadecimal digits. */
  predicate HexDigits(s: string) {
    forall c | c in s :: c in "0123456789abcdef"
  }

  lemma HexIff(s: string)
    ensures AllHex(s) <==> HexDigits(s)
  {
    if AllHex(s) {
      forall c | c in s ensures c in "0123456789abcdef" {
        HexDigitIff(c);
      }
    }
    if HexDigits(s) {
      forall i | 0 <= i < |s| ensures IsHex(s[i]) {
        assert s[i] in s;
        HexDigitIff(s[i]);
      }
    }
  }

  lemma HexDigitIff(c: char)
    ensures IsHex(c) <==> c in "0123456789abcdef"
  {
    var d := "0123456789abcdef";
    assert d[0] == '0' && d[1] == '1' && d[2] == '2' && d[3] == '3' && d[4] == '4' && d[5] == '5' && d[6] == '6' && d[7] == '7';
    assert d[8] == '8' && d[9] == '9' && d[10] == 'a' && d[11] == 'b' && d[12] == 'c' && d[13] == 'd' && d[14] == 'e' && d[15] == 'f';
  }

  /** A commit is forty hexadecimal digits, a digest sixty-four. */
  lemma IdentifierIff(s: string)
    ensures IsCommit(s) <==> |s| == 40 && HexDigits(s)
    ensures IsSha256Hex(s) <==> |s| == 64 && HexDigits(s)
  {
    HexIff(s);
  }

  /** A repository name: lower-case letters, digits and `./:_-`, beginning with a letter or a
      digit. */
  predicate RepositoryName(s: string) {
    && s != "" && ('a' <= s[0] <= 'z' || '0' <= s[0] <= '9')
    && forall c | c in s :: 'a' <= c <= 'z' || '0' <= c <= '9' || c in "./:_-"
  }

  /** An immutable reference is a repository name, `@sha256:` and sixty-four hexadecimal
      digits. */
  lemma ImageDigestIff(s: string)
    ensures IsImageDigest(s) <==>
      exists name, digest :: s == name + "@sha256:" + digest && RepositoryName(name) && |digest| == 64 && HexDigits(digest)
  {
    hide HexDigits, AllHex, RepositoryName;
    if IsImageDigest(s) {
      var n := |s| - 72;
      var name, digest := s[..n], s[|s| - 64..];
      assert s == name + s[n..|s| - 64] + digest;
      RepositoryNameIff(name);
      IdentifierIff(digest);
      assert forall i | 0 <= i < n :: name[i] == s[i];
    }
    if name, digest :| s == name + "@sha256:" + digest && RepositoryName(name) && |digest| == 64 && HexDigits(digest) {
      RepositoryNameIff(name);
      IdentifierIff(digest);
      assert s[|s| - 64..] == digest && s[|name|..|s| - 64] == "@sha256:" && s[..|name|] == name;
      assert forall i | 0 <= i < |name| :: s[i] == name[i];
    }
  }

  lemma RepositoryNameIff(s: string)
    ensures RepositoryName(s) <==> s != "" && IsRepositoryStart(s[0]) && forall i | 0 <= i < |s| :: IsRepositoryChar(s[i])
  {
    forall c ensures IsRepositoryChar(c) <==> 'a' <= c <= 'z' || '0' <= c <= '9' || c in "./:_-" {
      var d := "./:_-";
      assert d[0] == '.' && d[1] == '/' && d[2] == ':' && d[3] == '_' && d[4] == '-';
    }
    assert forall i | 0 <= i < |s| :: s[i] in s;
  }
}
