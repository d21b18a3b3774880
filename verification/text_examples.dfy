/** Worked examples of the two string helpers, on concrete inputs. */
module TextExamples {
  import opened Text

  /** Dots and spaces are dropped: "0912 345.678" becomes "0912345678". */
  lemma NormalizePhoneExample()
    ensures NormalizePhone("0912" + " " + "345" + "." + "678") == "0912" + "345" + "678"
  {
    var a, b := "0912" + " ", "345" + ".";
    assert NormalizePhone(a) == "0912" by {
      NormalizePhoneAppend("0912", " ");
      NormalizePhoneIdentity("0912");
      NormalizePhoneEmpty(" ");
    }
    assert NormalizePhone(b) == "345" by {
      NormalizePhoneAppend("345", ".");
      NormalizePhoneIdentity("345");
      NormalizePhoneEmpty(".");
    }
    NormalizePhoneIdentity("678");
    NormalizePhoneAppend(a, b);
    NormalizePhoneAppend(a + b, "678");
    assert "0912" + " " + "345" + "." + "678" == a + b + "678";
  }

  /** The CR in front of a CRLF survives the conversion. */
  lemma CrlfToLfLeavesCr()
    ensures CrlfToLf("a" + "\r" + "\r\n" + "b") == "a" + "\r" + "\n" + "b"
  {
    CrlfToLfCons('b', []);
    CrlfToLfCrlf("b");
    CrlfToLfCons('\r', "\r\n" + "b");
    CrlfToLfCons('a', "\r" + "\r\n" + "b");
    assert "a" + "\r" + "\r\n" + "b" == ['a'] + (['\r'] + ("\r\n" + "b"));
  }

  /** The CRLF that the first conversion left behind is converted the second time. */
  lemma CrlfToLfJoinsLine()
    ensures CrlfToLf("a" + "\r" + "\n" + "b") == "a" + "\n" + "b"
  {
    CrlfToLfCons('b', []);
    CrlfToLfCrlf("b");
    CrlfToLfCons('a', "\r\n" + "b");
    assert "a" + "\r" + "\n" + "b" == ['a'] + ("\r\n" + "b");
  }

  /** One pass over "a\r\r\nb" leaves a CRLF behind ... */
  lemma SanitizeTextFirstPass()
    ensures SanitizeText("a" + "\r" + "\r\n" + "b") == "a" + "\r" + "\n" + "b"
  {
    CrlfToLfLeavesCr();
    SanitizeTextIsCrlfToLf("a" + "\r" + "\r\n" + "b");
  }

  /** ... which a second pass converts. */
  lemma SanitizeTextSecondPass()
    ensures SanitizeText("a" + "\r" + "\n" + "b") == "a" + "\n" + "b"
  {
    CrlfToLfJoinsLine();
    SanitizeTextIsCrlfToLf("a" + "\r" + "\n" + "b");
  }

  /**
    Sanitising is not idempotent: a CR left in front of a converted CRLF forms
    a new CRLF, which only a second pass converts.  (The handler applies it to
    values the decoder has already sanitised, generate.ts:149-151.)
   */
  lemma SanitizeTextNotIdempotent()
    ensures exists s :: SanitizeText(SanitizeText(s)) != SanitizeText(s)
  {
    var s := "a" + "\r" + "\r\n" + "b";
    SanitizeTextFirstPass();
    SanitizeTextSecondPass();
    assert |SanitizeText(SanitizeText(s))| != |SanitizeText(s)|;
  }
}
