/** The language codes the main screen falls back to (the app's `Const` class). */
module Const {

  /** `Const.LANG_CODE_EN`: English. */
  const LangCodeEn: string := "en"

  /** `Const.LANG_CODE_AUTO`: "detect the input language automatically". */
  const LangCodeAuto: string := "auto"
}
