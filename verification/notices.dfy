/**
 The fixed texts the two generator scripts insert into the page: a banner
 that says the page runs locally, its style rules, and (generate-local-html.js
 only) a script that fades the banner out. Each is kept as the list of its
 lines, joined with line feeds exactly as the scripts' template literals are.
 */
module Notices {
  import opened Text

  /** The banner generate-local-html.js puts after `<body>`, line by line. */
  const RunningNoticeLines: seq<string> := [
    "",
    "    <div id=\"api-use-notice\">",
    "        RUNNING LOCALLY<br>",
    "        AI features are enabled with your API key",
    "    </div>"]
  const RunningNotice: string := Join(RunningNoticeLines, '\n')

  /** Its style rules, put before `</style>`. */
  const RunningNoticeCssLines: seq<string> := [
    "",
    "        /* API Key Local Running Notice */",
    "        #api-use-notice {",
    "            position: fixed;",
    "            top: 10px;",
    "            left: 10px;",
    "            background: rgba(255, 193, 7, 0.9);",
    "            color: #000;",
    "            padding: 10px;",
    "            border-radius: 5px;",
    "            font-size: 12px;",
    "            z-index: 1001;",
    "            max-width: 300px;",
    "            opacity: 1;",
    "            transition: opacity 2s ease-out;",
    "        }",
    "        ",
    "        #api-use-notice.fade-out {",
    "            opacity: 0;",
    "        }"]
  const RunningNoticeCss: string := Join(RunningNoticeCssLines, '\n')

  /** Its script that fades the banner out, put before `</script>`. */
  const FadeNoticeScriptLines: seq<string> := [
    "",
    "        // Fade out the local running notice after 6 seconds",
    "        document.addEventListener('DOMContentLoaded', function() {",
    "            const notice = document.getElementById('api-use-notice');",
    "            if (notice) {",
    "                setTimeout(() => {",
    "                    notice.classList.add('fade-out');",
    "                    // Remove the element after fade completes",
    "                    setTimeout(() => {",
    "                        if (notice.parentNode) {",
    "                            notice.parentNode.removeChild(notice);",
    "                        }",
    "                    }, 2000); // Match CSS transition duration",
    "                }, 6000); // 6 seconds",
    "            }",
    "        });"]
  const FadeNoticeScript: string := Join(FadeNoticeScriptLines, '\n')

  /** The banner generate-local-test.js puts after `<body>`. */
  const TestingNoticeLines: seq<string> := [
    "",
    "    <div id=\"api-test-notice\">",
    "        \U{1F9EA} LOCAL TESTING MODE<br>",
    "        AI features enabled with your API key",
    "    </div>"]
  const TestingNotice: string := Join(TestingNoticeLines, '\n')

  /** Its style rules, put before `</style>`. */
  const TestingNoticeCssLines: seq<string> := [
    "",
    "        /* API Key Testing Notice */",
    "        #api-test-notice {",
    "            position: fixed;",
    "            top: 10px;",
    "            left: 10px;",
    "            background: rgba(255, 193, 7, 0.9);",
    "            color: #000;",
    "            padding: 10px;",
    "            border-radius: 5px;",
    "            font-size: 12px;",
    "            z-index: 1001;",
    "            max-width: 300px;",
    "        }"]
  const TestingNoticeCss: string := Join(TestingNoticeCssLines, '\n')

  /** The running-locally banner holds no `$`. */
  lemma RunningNoticeLiteral()
    ensures '$' !in RunningNotice
  {
    JoinWithout(RunningNoticeLines, '\n', '$');
  }

  /** Its style rules hold no `$`. */
  lemma RunningNoticeCssLiteral()
    ensures '$' !in RunningNoticeCss
  {
    RunningCssFree0();
    RunningCssFree5();
    RunningCssFree10();
    RunningCssFree15();
    JoinWithout(RunningNoticeCssLines, '\n', '$');
  }

  /** Lines 0 to 4 of the running banner's style rules hold no `$`. */
  lemma RunningCssFree0()
    ensures forall i :: 0 <= i < 5 ==> '$' !in RunningNoticeCssLines[i]
  {
  }

  /** Lines 5 to 9 of the running banner's style rules hold no `$`. */
  lemma RunningCssFree5()
    ensures forall i :: 5 <= i < 10 ==> '$' !in RunningNoticeCssLines[i]
  {
  }

  /** Lines 10 to 14 of the running banner's style rules hold no `$`. */
  lemma RunningCssFree10()
    ensures forall i :: 10 <= i < 15 ==> '$' !in RunningNoticeCssLines[i]
  {
  }

  /** Lines 15 to 19 of the running banner's style rules hold no `$`. */
  lemma RunningCssFree15()
    ensures forall i :: 15 <= i < 20 ==> '$' !in RunningNoticeCssLines[i]
  {
  }

  /** Line 1 of the fade script holds no `$`. */
  lemma FadeScriptLine1()
    ensures '$' !in FadeNoticeScriptLines[1]
  {
    assert '$' !in "        // Fade out the loca";
    assert '$' !in "        // Fade out the local running notice after 6 sec";
  }

  /** Line 2 of the fade script holds no `$`. */
  lemma FadeScriptLine2()
    ensures '$' !in FadeNoticeScriptLines[2]
  {
    assert '$' !in "        document.addEventLis";
    assert '$' !in "        document.addEventListener('DOMContentLoaded', fu";
  }

  /** Line 3 of the fade script holds no `$`. */
  lemma FadeScriptLine3()
    ensures '$' !in FadeNoticeScriptLines[3]
  {
    assert '$' !in "            const notice = d";
    assert '$' !in "            const notice = document.getElementById('api-";
  }

  /** Line 6 of the fade script holds no `$`. */
  lemma FadeScriptLine6()
    ensures '$' !in FadeNoticeScriptLines[6]
  {
    assert '$' !in "                    notice.c";
  }

  /** Line 7 of the fade script holds no `$`. */
  lemma FadeScriptLine7()
    ensures '$' !in FadeNoticeScriptLines[7]
  {
    assert '$' !in "                    // Remov";
    assert '$' !in "                    // Remove the element after fade com";
  }

  /** Line 9 of the fade script holds no `$`. */
  lemma FadeScriptLine9()
    ensures '$' !in FadeNoticeScriptLines[9]
  {
    assert '$' !in "                        if (";
  }

  /** Line 10 of the fade script holds no `$`. */
  lemma FadeScriptLine10()
    ensures '$' !in FadeNoticeScriptLines[10]
  {
    assert '$' !in "                            ";
    assert '$' !in "                            notice.parentNode.removeChil";
  }

  /** Line 12 of the fade script holds no `$`. */
  lemma FadeScriptLine12()
    ensures '$' !in FadeNoticeScriptLines[12]
  {
    assert '$' !in "                    }, 2000)";
    assert '$' !in "                    }, 2000); // Match CSS transition du";
  }

  /** The fade script holds no `$`. */
  lemma FadeNoticeScriptLiteral()
    ensures '$' !in FadeNoticeScript
  {
    FadeScriptLine1();
    FadeScriptLine2();
    FadeScriptLine3();
    FadeScriptLine6();
    FadeScriptLine7();
    FadeScriptLine9();
    FadeScriptLine10();
    FadeScriptLine12();
    JoinWithout(FadeNoticeScriptLines, '\n', '$');
  }

  /** The testing banner holds no `$`. */
  lemma TestingNoticeLiteral()
    ensures '$' !in TestingNotice
  {
    JoinWithout(TestingNoticeLines, '\n', '$');
  }

  /** Lines 0 to 4 of the testing banner's style rules hold no `$`. */
  lemma TestingCssFree0()
    ensures forall i :: 0 <= i < 5 ==> '$' !in TestingNoticeCssLines[i]
  {
  }

  /** Lines 5 to 9 of the testing banner's style rules hold no `$`. */
  lemma TestingCssFree5()
    ensures forall i :: 5 <= i < 10 ==> '$' !in TestingNoticeCssLines[i]
  {
  }

  /** Lines 10 to 13 of the testing banner's style rules hold no `$`. */
  lemma TestingCssFree10()
    ensures forall i :: 10 <= i < 14 ==> '$' !in TestingNoticeCssLines[i]
  {
  }

  /** The testing banner's style rules hold no `$`. */
  lemma TestingNoticeCssLiteral()
    ensures '$' !in TestingNoticeCss
  {
    TestingCssFree0();
    TestingCssFree5();
    TestingCssFree10();
    JoinWithout(TestingNoticeCssLines, '\n', '$');
  }

}
